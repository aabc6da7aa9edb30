// The LC_DYLD_INFO bind opcode machine of resolver.c (regular, weak and lazy passes),
// proved against a list of decoded operations that is first expanded to single
// binds. Resolving one bind is left out: the machine's output is the list of binds
// it asks for.
module Bind {
  import opened Bits
  import opened Leb
  import opened CString

  // Counted(n, k): n times, bind one pointer and move on by k + 8.
  datatype Op =
    | Done
    | SetOrdinal(ordinal: int)
    | SetSymbol(flags: nat, name: seq<U8>)
    | SetType(kind: nat)
    | SetAddend(addend: I64)
    | SetSegment(index: nat, offset: U64)
    | AddAddr(delta: U64)
    | Counted(count: U64, skip: U64)
    | Unknown
    | Unterminated // a symbol name whose NUL lies beyond the stream

  datatype State = State(seg: nat, off: U64, ordinal: int, name: seq<U8>, flags: nat, addend: int)

  const START := State(0, 0, 0, [], 0, 0)

  // The arguments of one do_bind_one call.
  datatype Event = Event(seg: nat, off: U64, ordinal: int, name: seq<U8>, weak: bool, addend: int)

  // (int)v
  function AsInt(v: U64): int {
    var u := v % TWO32;
    if u < 0x8000_0000 then u else u - TWO32
  }

  // --- Decoding ---

  datatype Fetched = Fetched(op: Op, next: nat)

  function FetchSymbol(s: seq<U8>, p: nat, flags: nat): (f: Fetched)
    requires p <= |s|
    ensures p <= f.next <= |s|
  {
    var z := NameEnd(s, p);
    if z < |s| then Fetched(SetSymbol(flags, NameAt(s, p)), z + 1) else Fetched(Unterminated, z)
  }

  function Fetch(s: seq<U8>, p: nat): (f: Fetched)
    requires p < |s|
    ensures p < f.next <= |s|
  {
    var imm, q := s[p] % 16, p + 1;
    var e, v := LebEnd(s, q), Wrap(UlebValue(s, q));
    match s[p] / 16
    case 0 => Fetched(Done, q)
    case 1 => Fetched(SetOrdinal(imm), q)
    case 2 => Fetched(SetOrdinal(AsInt(v)), e)
    case 3 => Fetched(SetOrdinal(if imm == 0 then 0 else imm - 16), q)
    case 4 => FetchSymbol(s, q, imm)
    case 5 => Fetched(SetType(imm), q)
    case 6 => Fetched(SetAddend(AsSigned(SlebValue(s, q))), e)
    case 7 => Fetched(SetSegment(imm, v), e)
    case 8 => Fetched(AddAddr(v), e)
    case 9 => Fetched(Counted(1, 0), q)
    case 10 => Fetched(Counted(1, v), e)
    case 11 => Fetched(Counted(1, imm * 8), q)
    case 12 => Fetched(Counted(v, Wrap(UlebValue(s, e))), LebEnd(s, e))
    case _ => Fetched(Unknown, q)
  }

  // DONE ends a regular or weak pass; in the lazy pass it only separates entries. A name
  // that runs on beyond the stream takes the read position with it and ends the pass too.
  predicate Final(op: Op, isLazy: bool) {
    op.Unknown? || op.Unterminated? || (op.Done? && !isLazy)
  }

  function Parse(s: seq<U8>, p: nat, isLazy: bool): seq<Op>
    requires p <= |s|
    decreases |s| - p
  {
    if p == |s| then []
    else
      var f := Fetch(s, p);
      [f.op] + if Final(f.op, isLazy) then [] else Parse(s, f.next, isLazy)
  }

  // --- Meaning: the binds asked for, in order ---

  function EventOf(st: State): Event {
    Event(st.seg, st.off, st.ordinal, st.name, st.flags % 2 == 1, st.addend)
  }

  function Move(st: State, delta: int): State {
    st.(off := Wrap(st.off + delta))
  }

  function Events1(st: State, n: nat, skip: U64): seq<Event>
    decreases n
  {
    if n == 0 then [] else [EventOf(st)] + Events1(Move(st, skip + 8), n - 1, skip)
  }

  function Past(st: State, n: nat, skip: U64): State
    decreases n
  {
    if n == 0 then st else Past(Move(st, skip + 8), n - 1, skip)
  }

  function Effect(st: State, op: Op): seq<Event> {
    if op.Counted? then Events1(st, op.count, op.skip) else []
  }

  function After(st: State, op: Op): State {
    match op
    case SetOrdinal(o) => st.(ordinal := o)
    case SetSymbol(f, n) => st.(flags := f, name := n)
    case SetAddend(a) => st.(addend := a)
    case SetSegment(i, o) => st.(seg := i, off := o)
    case AddAddr(d) => Move(st, d)
    case Counted(n, k) => Past(st, n, k)
    case _ => st
  }

  function Events(ops: seq<Op>, st: State, isLazy: bool): seq<Event> {
    if ops == [] || Final(ops[0], isLazy) then []
    else Effect(st, ops[0]) + Events(ops[1..], After(st, ops[0]), isLazy)
  }

  function Succeeds(ops: seq<Op>): bool {
    Unknown !in ops
  }

  // --- The opcodes by the numbers ---

  // n binds of the current symbol, `stride` bytes apart.
  function Strided(st: State, n: nat, stride: int): seq<Event> {
    seq(n, i => Event(st.seg, (st.off + i * stride) % TWO64, st.ordinal, st.name, st.flags % 2 == 1, st.addend))
  }

  lemma {:induction false} CountedIs(st: State, n: nat, skip: U64)
    ensures Events1(st, n, skip) == Strided(st, n, skip + 8)
    ensures Past(st, n, skip) == st.(off := (st.off + n * (skip + 8)) % TWO64)
    decreases n
  {
    if n > 0 {
      var (next, k) := (Move(st, skip + 8), skip + 8);
      CountedIs(next, n - 1, skip);
      MovedOn(st.off, k, n - 1);
      hide Past, Events1;
      StridedSplit(st, n, k);
      CountedStep(st, n, skip);
    }
  }

  lemma CountedStep(st: State, n: nat, skip: U64)
    requires n > 0
    ensures Events1(st, n, skip) == [EventOf(st)] + Events1(Move(st, skip + 8), n - 1, skip)
    ensures Past(st, n, skip) == Past(Move(st, skip + 8), n - 1, skip)
  {
  }

  lemma StridedAt(st: State, n: nat, k: int, i: nat)
    requires i < n
    ensures |Strided(st, n, k)| == n
    ensures Strided(st, n, k)[i] == EventOf(st).(off := (st.off + i * k) % TWO64)
  {
  }

  lemma StridedSplit(st: State, n: nat, k: int)
    requires n > 0
    ensures Strided(st, n, k) == [EventOf(st)] + Strided(Move(st, k), n - 1, k)
  {
    StridedAt(st, n, k, 0);
    var (a, b) := (Strided(st, n, k), Strided(Move(st, k), n - 1, k));
    assert |b| == n - 1 && a[0] == EventOf(st);
    hide Strided;
    forall i | 0 <= i < |b|
      ensures b[i] == a[i + 1]
    {
      StridedAt(st, n, k, i + 1);
      StridedAt(Move(st, k), n - 1, k, i);
      MovedOn(st.off, k, i);
    }
    assert a == [a[0]] + a[1..];
  }

  lemma MovedOn(off: int, k: int, n: nat)
    ensures ((off + k) % TWO64 + n * k) % TWO64 == (off + (n + 1) * k) % TWO64
  {
    SumMod(n * k, off + k, TWO64);
    assert n * k + (off + k) == off + (n + 1) * k;
  }

  // What one opcode binds, the state it leaves, and where the next one stands.
  datatype Done1 = Done1(bound: seq<Event>, state: State, next: nat)

  // The opcodes of mach-o/loader.h but the symbol's; v and w are the numbers that follow
  // and x the first of them read as signed. Special ordinals are negative, from -15.
  function OpcodeDoes(st: State, opcode: nat, imm: nat, v: U64, w: U64, x: I64, p1: nat, pv: nat, pw: nat): Done1 {
    if opcode == 1 then Done1([], st.(ordinal := imm), p1)
    else if opcode == 2 then Done1([], st.(ordinal := AsSigned(v * TWO32) / TWO32), pv)
    else if opcode == 3 then Done1([], st.(ordinal := if imm == 0 then 0 else imm - 16), p1)
    else if opcode == 6 then Done1([], st.(addend := x), pv)
    else if opcode == 7 then Done1([], st.(seg := imm, off := v), pv)
    else if opcode == 8 then Done1([], st.(off := (st.off + v) % TWO64), pv)
    else if opcode == 9 then Done1(Strided(st, 1, 8), st.(off := (st.off + 8) % TWO64), p1)
    else if opcode == 10 then Done1(Strided(st, 1, 8), st.(off := (st.off + v + 8) % TWO64), pv)
    else if opcode == 11 then Done1(Strided(st, 1, 8), st.(off := (st.off + 8 * imm + 8) % TWO64), p1)
    else if opcode == 12 then Done1(Strided(st, v, w + 8), st.(off := (st.off + v * (w + 8)) % TWO64), pw)
    else Done1([], st, p1)
  }

  // The decoded operation does what the opcode's numbers say; opcode 0 is DONE and those
  // from 13 on are unknown.
  lemma OpcodeTable(s: seq<U8>, p: nat, st: State)
    requires p < |s| && s[p] / 16 != 4
    ensures var (e, f) := (LebEnd(s, p + 1), Fetch(s, p));
            && Done1(Effect(st, f.op), After(st, f.op), f.next)
               == OpcodeDoes(st, s[p] / 16, s[p] % 16, Wrap(UlebValue(s, p + 1)), Wrap(UlebValue(s, e)),
                             AsSigned(SlebValue(s, p + 1)), p + 1, e, LebEnd(s, e))
            && (f.op == Done <==> s[p] / 16 == 0) && (f.op == Unknown <==> s[p] / 16 >= 13)
  {
    hide LebEnd, UlebValue, SlebValue, Events1, Past, Strided, Wrap, NameEnd, AsSigned, AsInt, Move;
    var f := Fetch(s, p).op;
    if f.Counted? {
      CountedIs(st, f.count, f.skip);
      OneStride(st, f.skip + 8);
    }
    LowWord(Wrap(UlebValue(s, p + 1)));
    MoveIs(st);
  }

  lemma OneStride(st: State, stride: int)
    ensures Strided(st, 1, stride) == Strided(st, 1, 8)
  {
  }

  lemma MoveIs(st: State)
    ensures forall d: int {:trigger Move(st, d)} :: Move(st, d) == st.(off := (st.off + d) % TWO64)
  {
  }

  // The sign of the low 32 bits.
  lemma LowWord(v: U64)
    ensures AsInt(v) == AsSigned(v * TWO32) / TWO32
  {
    var (q, r) := (v / TWO32, v % TWO32);
    assert v * TWO32 == q * TWO64 + r * TWO32;
    DivModUnique(v * TWO32, TWO64, q, r * TWO32);
  }

  // Opcode 4: the name up to its NUL, with the flags; nothing is bound.
  lemma SymbolOpcode(s: seq<U8>, p: nat, z: nat, st: State)
    requires p < |s| && s[p] / 16 == 4 && p < z < |s| && s[z] == 0 && forall i :: p < i < z ==> s[i] != 0
    ensures var f := Fetch(s, p);
            && f.next == z + 1 && Effect(st, f.op) == []
            && After(st, f.op) == st.(flags := s[p] % 16, name := s[p + 1..z])
  {
    NameFound(s, p + 1, z);
    hide LebEnd, UlebValue, SlebValue, NameEnd;
  }

  // --- The machine ---

  method BindTimes(st0: State, n: nat, skip: U64) returns (st: State, events: seq<Event>)
    ensures events == Events1(st0, n, skip)
    ensures st == Past(st0, n, skip)
  {
    st, events := st0, [];
    var i := 0;
    while i < n
      invariant 0 <= i <= n
      invariant events + Events1(st, n - i, skip) == Events1(st0, n, skip)
      invariant Past(st, n - i, skip) == Past(st0, n, skip)
    {
      events := events + [EventOf(st)];
      st := Move(st, skip + 8);
      i := i + 1;
    }
  }

  // One turn of the switch.
  method Turn(s: seq<U8>, start: nat, st0: State) returns (op: Op, p: nat, st: State, events: seq<Event>)
    requires start < |s|
    ensures op == Fetch(s, start).op && p == Fetch(s, start).next
    ensures events == Effect(st0, op)
    ensures st == After(st0, op)
  {
    hide LebEnd, UlebValue, SlebValue, NameEnd;
    var opcode, imm := s[start] / 16, s[start] % 16;
    p, st, events := start + 1, st0, [];
    match opcode
    case 0 =>
      op := Done;
    case 1 =>
      op, st := SetOrdinal(imm), st.(ordinal := imm);
    case 2 =>
      var v;
      v, p := ReadUleb(s, p);
      op, st := SetOrdinal(AsInt(v)), st.(ordinal := AsInt(v));
    case 3 =>
      var ordinal := if imm == 0 then 0 else imm - 16;
      op, st := SetOrdinal(ordinal), st.(ordinal := ordinal);
    case 4 =>
      var z := ScanName(s, p);
      if z == |s| {
        op, p := Unterminated, z;
      } else {
        op, st := SetSymbol(imm, s[p..z]), st.(flags := imm, name := s[p..z]);
        p := z + 1;
      }
    case 5 =>
      op := SetType(imm);
    case 6 =>
      var a;
      a, p := ReadSleb(s, p);
      op, st := SetAddend(a), st.(addend := a);
    case 7 =>
      var o;
      o, p := ReadUleb(s, p);
      op, st := SetSegment(imm, o), st.(seg := imm, off := o);
    case 8 =>
      var d;
      d, p := ReadUleb(s, p);
      op, st := AddAddr(d), Move(st, d);
    case 9 =>
      Once(st, 0);
      op, events, st := Counted(1, 0), [EventOf(st)], Move(st, 8);
    case 10 =>
      events := [EventOf(st)];
      var d: U64;
      d, p := ReadUleb(s, p);
      Once(st, d);
      op, st := Counted(1, d), Move(st, (d as int) + 8);
    case 11 =>
      Once(st, imm * 8);
      op, events, st := Counted(1, imm * 8), [EventOf(st)], Move(st, imm * 8 + 8);
    case 12 =>
      var n, skip;
      n, p := ReadUleb(s, p);
      skip, p := ReadUleb(s, p);
      op := Counted(n, skip);
      st, events := BindTimes(st, n, skip);
    case _ =>
      op := Unknown;
  }

  lemma Once(st: State, skip: U64)
    ensures Events1(st, 1, skip) == [EventOf(st)]
    ensures Past(st, 1, skip) == Move(st, skip + 8)
  {
    var next := Move(st, skip + 8);
    assert Events1(next, 0, skip) == [] && Past(next, 0, skip) == next;
  }

  lemma Advance(s: seq<U8>, p: nat, st: State, isLazy: bool)
    requires p < |s|
    ensures var f := Fetch(s, p);
            && Events(Parse(s, p, isLazy), st, isLazy)
               == (if Final(f.op, isLazy) then []
                   else Effect(st, f.op) + Events(Parse(s, f.next, isLazy), After(st, f.op), isLazy))
            && (Succeeds(Parse(s, p, isLazy))
                <==> !f.op.Unknown? && (Final(f.op, isLazy) || Succeeds(Parse(s, f.next, isLazy))))
  {
    hide Fetch, Effect, After;
    var f := Fetch(s, p);
    if Final(f.op, isLazy) {
      assert Parse(s, p, isLazy) == [f.op];
    } else {
      assert Parse(s, p, isLazy)[1..] == Parse(s, f.next, isLazy);
    }
  }

  // One bind pass. ok is false where the source returns -1.
  method Run(s: seq<U8>, isLazy: bool) returns (ok: bool, events: seq<Event>)
    ensures events == Events(Parse(s, 0, isLazy), START, isLazy)
    ensures ok <==> Succeeds(Parse(s, 0, isLazy))
  {
    var p, st, done := 0, START, false;
    events := [];
    hide Fetch, Effect, After, Succeeds, Events, Parse;
    ghost var rest := Events(Parse(s, 0, isLazy), START, isLazy);
    while p < |s| && !done
      invariant p <= |s|
      invariant Events(Parse(s, 0, isLazy), START, isLazy) == events + rest
      invariant rest == if done then [] else Events(Parse(s, p, isLazy), st, isLazy)
      invariant Succeeds(Parse(s, 0, isLazy)) <==> done || Succeeds(Parse(s, p, isLazy))
      decreases |s| - p
    {
      Advance(s, p, st, isLazy);
      Idle(st, Fetch(s, p).op);
      var op, more;
      op, p, st, more := Turn(s, p, st);
      events := events + more;
      if op.Unknown? {
        return false, events;
      }
      done := op.Unterminated? || (op.Done? && !isLazy);
      rest := if done then [] else Events(Parse(s, p, isLazy), st, isLazy);
    }
    NothingLeft(s, st, isLazy);
    ok := true;
  }

  lemma NothingLeft(s: seq<U8>, st: State, isLazy: bool)
    ensures Events(Parse(s, |s|, isLazy), st, isLazy) == [] && Succeeds(Parse(s, |s|, isLazy))
  {
  }

  lemma Idle(st: State, op: Op)
    ensures !op.Counted? ==> Effect(st, op) == []
  {
  }

  // The three passes in order; a failing pass stops the rest.
  method Passes(bind: seq<U8>, weak: seq<U8>, lazyBind: seq<U8>) returns (ok: bool, events: seq<Event>)
    ensures var e0 := Events(Parse(bind, 0, false), START, false);
            var e1 := Events(Parse(weak, 0, false), START, false);
            var e2 := Events(Parse(lazyBind, 0, true), START, true);
            var ok0 := Succeeds(Parse(bind, 0, false));
            var ok1 := Succeeds(Parse(weak, 0, false));
            && events == e0 + (if ok0 then e1 + (if ok1 then e2 else []) else [])
            && (ok <==> ok0 && ok1 && Succeeds(Parse(lazyBind, 0, true)))
  {
    hide Events, Parse, Succeeds;
    var more;
    ok, events := Run(bind, false);
    if ok {
      ok, more := Run(weak, false);
      events := events + more;
      if ok {
        ok, more := Run(lazyBind, true);
        events := events + more;
      }
    }
  }

  // --- Results ---

  function Singles(n: nat, skip: U64): seq<Op>
    decreases n
  {
    if n == 0 then [] else [Counted(1, 0), AddAddr(skip)] + Singles(n - 1, skip)
  }

  // Every counted bind written out as plain DO_BINDs and address moves; DONE dropped
  // from a lazy stream, where it separates, and everything after it from the others.
  function Expanded(ops: seq<Op>, isLazy: bool): seq<Op> {
    if ops == [] || Final(ops[0], isLazy) then []
    else (match ops[0]
          case Counted(n, k) => Singles(n, k)
          case Done => []
          case _ => [ops[0]]) + Expanded(ops[1..], isLazy)
  }

  lemma MoveTwice(st: State, a: int, b: int)
    ensures Move(Move(st, a), b) == Move(st, a + b)
  {
    SumMod(b, st.off + a, TWO64);
  }

  lemma {:induction false} SinglesMean(st: State, n: nat, skip: U64, rest: seq<Op>)
    ensures Events(Singles(n, skip) + rest, st, false)
         == Events1(st, n, skip) + Events(rest, Past(st, n, skip), false)
    decreases n
  {
    hide Move, EventOf;
    if n == 0 {
      assert Singles(n, skip) + rest == rest;
    } else {
      var (all, tail) := (Singles(n, skip) + rest, Singles(n - 1, skip) + rest);
      assert all == [Counted(1, 0)] + ([AddAddr(skip)] + tail);
      Once(st, 0);
      MoveTwice(st, 8, skip);
      EventsCons(Counted(1, 0), [AddAddr(skip)] + tail, st, false);
      EventsCons(AddAddr(skip), tail, Move(st, 8), false);
      SinglesMean(Move(st, skip + 8), n - 1, skip, rest);
    }
  }

  lemma EventsCons(op: Op, rest: seq<Op>, st: State, isLazy: bool)
    requires !Final(op, isLazy)
    ensures Events([op] + rest, st, isLazy) == Effect(st, op) + Events(rest, After(st, op), isLazy)
  {
    assert ([op] + rest)[1..] == rest;
  }

  lemma {:induction false} ExpansionMeansTheSame(ops: seq<Op>, st: State, isLazy: bool)
    ensures Events(Expanded(ops, isLazy), st, false) == Events(ops, st, isLazy)
    decreases |ops|
  {
    if ops != [] && !Final(ops[0], isLazy) {
      var rest := Expanded(ops[1..], isLazy);
      ExpansionMeansTheSame(ops[1..], After(st, ops[0]), isLazy);
      if ops[0].Counted? {
        SinglesMean(st, ops[0].count, ops[0].skip, rest);
      } else if ops[0].Done? {
        assert Expanded(ops, isLazy) == rest;
      } else {
        EventsCons(ops[0], rest, st, false);
      }
    }
  }

  // --- The encoding of an operation list, which the machine reads back ---

  predicate Encodable(op: Op) {
    match op
    case Done => false
    case SetOrdinal(o) => -0x8000_0000 <= o < 0x8000_0000
    case SetSymbol(f, n) => f < 16 && 0 !in n
    case SetType(k) => k < 16
    case SetSegment(i, _) => i < 16
    case Unknown => false
    case Unterminated => false
    case _ => true
  }

  function Bytes(op: Op): seq<U8>
    requires Encodable(op)
  {
    match op
    case SetOrdinal(o) => [0x20] + Uleb(o % TWO32)
    case SetSymbol(f, n) => [0x40 + f] + (n + [0])
    case SetType(k) => [0x50 + k]
    case SetAddend(a) => [0x60] + Sleb(a)
    case SetSegment(i, o) => [0x70 + i] + Uleb(o)
    case AddAddr(d) => [0x80] + Uleb(d)
    case Counted(n, k) => if n == 1 && k == 0 then [0x90] else [0xC0] + Uleb(n) + Uleb(k)
  }

  predicate Stream(ops: seq<Op>) {
    ops == [] || (Encodable(ops[0]) && Stream(ops[1..]))
  }

  function AllBytes(ops: seq<Op>): seq<U8>
    requires Stream(ops)
  {
    if ops == [] then [] else Bytes(ops[0]) + AllBytes(ops[1..])
  }

  lemma FetchName(a: seq<U8>, f: nat, n: seq<U8>, b: seq<U8>)
    requires f < 16 && 0 !in n
    ensures Fetch(a + ([0x40 + f] + (n + [0])) + b, |a|) == Fetched(SetSymbol(f, n), |a| + 2 + |n|)
  {
    hide LebEnd, UlebValue, SlebValue, NameEnd;
    var s := a + ([0x40 + f] + (n + [0])) + b;
    var (p, z) := (|a| + 1, |a| + 1 + |n|);
    assert s[|a|] == 0x40 + f && s[z] == 0 && s[p..z] == n;
    assert forall i :: p <= i < z ==> s[i] == n[i - p];
    NameFound(s, p, z);
  }

  lemma FetchCounted(a: seq<U8>, n: U64, k: U64, b: seq<U8>)
    ensures Fetch(a + ([0xC0] + Uleb(n) + Uleb(k)) + b, |a|) == Fetched(Counted(n, k), |a| + 1 + |Uleb(n)| + |Uleb(k)|)
  {
    hide LebEnd, UlebValue, Uleb, Fetch;
    Regroup(a, [0xC0], Uleb(n), Uleb(k), b);
    FetchUleb(a, 0xC0, n, Uleb(k) + b);
    UlebRoundTrip(a + [0xC0] + Uleb(n), k, b);
    FetchSkipping(a + ([0xC0] + Uleb(n) + Uleb(k)) + b, |a|, |a| + 1 + |Uleb(n)|);
  }

  lemma FetchSkipping(s: seq<U8>, p: nat, e: nat)
    requires p < |s| && s[p] == 0xC0 && e == LebEnd(s, p + 1)
    ensures Fetch(s, p) == Fetched(Counted(Wrap(UlebValue(s, p + 1)), Wrap(UlebValue(s, e))), LebEnd(s, e))
  {
  }

  lemma FetchType(a: seq<U8>, k: nat, b: seq<U8>)
    requires k < 16
    ensures Fetch(a + [0x50 + k] + b, |a|) == Fetched(SetType(k), |a| + 1)
  {
    hide LebEnd, UlebValue, SlebValue, NameEnd;
    assert (a + [0x50 + k] + b)[|a|] == 0x50 + k;
  }

  lemma FetchBytes(a: seq<U8>, op: Op, b: seq<U8>)
    requires Encodable(op)
    ensures Fetch(a + Bytes(op) + b, |a|) == Fetched(op, |a| + |Bytes(op)|)
  {
    hide LebEnd, UlebValue, Uleb, SlebValue, Sleb, NameEnd;
    match op
    case SetOrdinal(o) => FetchUleb(a, 0x20, o % TWO32, b);
    case SetSymbol(f, n) => FetchName(a, f, n, b);
    case SetType(k) => FetchType(a, k, b);
    case SetAddend(d) => FetchSleb(a, 0x60, d, b);
    case SetSegment(i, o) => FetchUleb(a, 0x70 + i, o, b);
    case AddAddr(d) => FetchUleb(a, 0x80, d, b);
    case Counted(n, k) => FetchCounted(a, n, k, b);
  }

  lemma {:induction false} ParseBytes(s: seq<U8>, p: nat, ops: seq<Op>, isLazy: bool)
    requires p <= |s| && Stream(ops) && s[p..] == AllBytes(ops)
    ensures Parse(s, p, isLazy) == ops
    decreases |ops|
  {
    hide Fetch, Bytes;
    if ops != [] {
      var (op, rest) := (ops[0], ops[1..]);
      Cut(s, p, Bytes(op), AllBytes(rest));
      FetchBytes(s[..p], op, AllBytes(rest));
      ParseBytes(s, p + |Bytes(op)|, rest, isLazy);
      assert ops == [op] + rest;
    }
  }

  // Whatever is decoded can be encoded again.
  lemma FetchedEncodable(s: seq<U8>, p: nat)
    requires p < |s|
    ensures var op := Fetch(s, p).op; Final(op, false) || Encodable(op)
  {
    hide LebEnd, UlebValue, SlebValue, NameEnd;
  }

  lemma {:induction false} SinglesStream(n: nat, skip: U64, rest: seq<Op>)
    requires Stream(rest)
    ensures Stream(Singles(n, skip) + rest)
    decreases n
  {
    if n == 0 {
      assert Singles(n, skip) + rest == rest;
    } else {
      var (all, tail) := (Singles(n, skip) + rest, Singles(n - 1, skip) + rest);
      SinglesStream(n - 1, skip, rest);
      assert all[1..] == [AddAddr(skip)] + tail && all[1..][1..] == tail;
    }
  }

  lemma {:induction false} ExpandedStream(s: seq<U8>, p: nat, isLazy: bool)
    requires p <= |s|
    ensures Stream(Expanded(Parse(s, p, isLazy), isLazy))
    decreases |s| - p
  {
    if p < |s| {
      var f := Fetch(s, p);
      FetchedEncodable(s, p);
      hide Fetch, Encodable;
      if !Final(f.op, isLazy) {
        ExpandedStream(s, f.next, isLazy);
        var ops := Parse(s, p, isLazy);
        var rest := Expanded(ops[1..], isLazy);
        assert ops[1..] == Parse(s, f.next, isLazy);
        if f.op.Counted? {
          SinglesStream(f.op.count, f.op.skip, rest);
        } else if f.op.Done? {
          assert Expanded(ops, isLazy) == rest;
        } else {
          assert Expanded(ops, isLazy)[1..] == rest;
        }
      }
    }
  }

  // Any stream can be rewritten with plain DO_BINDs only, and the machine asks for the
  // same binds in the same order.
  lemma RewrittenStream(s: seq<U8>, isLazy: bool) returns (plain: seq<U8>)
    ensures Parse(plain, 0, false) == Expanded(Parse(s, 0, isLazy), isLazy)
    ensures forall op :: op in Parse(plain, 0, false) && op.Counted? ==> op == Counted(1, 0)
    ensures Events(Parse(plain, 0, false), START, false) == Events(Parse(s, 0, isLazy), START, isLazy)
  {
    var ops := Parse(s, 0, isLazy);
    ExpandedStream(s, 0, isLazy);
    plain := AllBytes(Expanded(ops, isLazy));
    ParseBytes(plain, 0, Expanded(ops, isLazy), false);
    ExpansionMeansTheSame(ops, START, isLazy);
    ExpandedPlain(ops, isLazy);
  }

  lemma {:induction false} SinglesPlain(n: nat, skip: U64)
    ensures forall op :: op in Singles(n, skip) && op.Counted? ==> op == Counted(1, 0)
    decreases n
  {
    if n != 0 {
      SinglesPlain(n - 1, skip);
    }
  }

  lemma {:induction false} ExpandedPlain(ops: seq<Op>, isLazy: bool)
    ensures forall op :: op in Expanded(ops, isLazy) && op.Counted? ==> op == Counted(1, 0)
    decreases |ops|
  {
    if ops != [] && !Final(ops[0], isLazy) {
      ExpandedPlain(ops[1..], isLazy);
      if ops[0].Counted? {
        SinglesPlain(ops[0].count, ops[0].skip);
      }
    }
  }
}
