// The LC_DYLD_INFO rebase opcode machine of resolver.c, proved against a list of
// decoded operations that is first expanded to the addresses it rebases.
module Rebase {
  import opened Bits
  import opened Memory
  import opened Leb

  // Counted(n, k): n times, rebase one pointer and move on by k + 8.
  datatype Op =
    | Done
    | SetType(kind: nat)
    | SetSegment(index: nat, offset: U64)
    | AddAddr(delta: U64)
    | Counted(count: U64, skip: U64)
    | Unknown

  datatype Cursor = Cursor(seg: nat, off: U64)

  // Segment load addresses before sliding, and the slide.
  datatype Image = Image(vmaddrs: seq<U64>, slide: U64)

  // --- Decoding ---

  datatype Fetched = Fetched(op: Op, next: nat)

  function Fetch(s: seq<U8>, p: nat): (f: Fetched)
    requires p < |s|
    ensures p < f.next <= |s|
  {
    var imm, q := s[p] % 16, p + 1;
    var e, v := LebEnd(s, q), Wrap(UlebValue(s, q));
    match s[p] / 16
    case 0 => Fetched(Done, q)
    case 1 => Fetched(SetType(imm), q)
    case 2 => Fetched(SetSegment(imm, v), e)
    case 3 => Fetched(AddAddr(v), e)
    case 4 => Fetched(AddAddr(imm * 8), q)
    case 5 => Fetched(Counted(imm, 0), q)
    case 6 => Fetched(Counted(v, 0), e)
    case 7 => Fetched(Counted(1, v), e)
    case 8 => Fetched(Counted(v, Wrap(UlebValue(s, e))), LebEnd(s, e))
    case _ => Fetched(Unknown, q)
  }

  predicate Final(op: Op) {
    op.Done? || op.Unknown?
  }

  // The operations the machine gets to see.
  function Parse(s: seq<U8>, p: nat): seq<Op>
    requires p <= |s|
    decreases |s| - p
  {
    if p == |s| then []
    else
      var f := Fetch(s, p);
      [f.op] + if Final(f.op) then [] else Parse(s, f.next)
  }

  // --- Meaning: the addresses to rebase, in order ---

  function Slot(img: Image, c: Cursor): seq<int> {
    if c.seg < |img.vmaddrs| then [Wrap(img.vmaddrs[c.seg] + img.slide + c.off)] else []
  }

  function Move(c: Cursor, delta: int): Cursor {
    c.(off := Wrap(c.off + delta))
  }

  function Slots(img: Image, c: Cursor, n: nat, skip: U64): seq<int>
    decreases n
  {
    if n == 0 then [] else Slot(img, c) + Slots(img, Move(c, skip + 8), n - 1, skip)
  }

  function Past(c: Cursor, n: nat, skip: U64): Cursor
    decreases n
  {
    if n == 0 then c else Past(Move(c, skip + 8), n - 1, skip)
  }

  function Effect(img: Image, c: Cursor, op: Op): seq<int> {
    if op.Counted? then Slots(img, c, op.count, op.skip) else []
  }

  function After(c: Cursor, op: Op): Cursor {
    match op
    case SetSegment(i, o) => Cursor(i, o)
    case AddAddr(d) => Move(c, d)
    case Counted(n, k) => Past(c, n, k)
    case _ => c
  }

  function Addresses(img: Image, ops: seq<Op>, c: Cursor): seq<int> {
    if ops == [] || Final(ops[0]) then []
    else Effect(img, c, ops[0]) + Addresses(img, ops[1..], After(c, ops[0]))
  }

  // --- The opcodes by the numbers ---

  // n pointers from offset off of a segment, `stride` bytes apart.
  function Strided(img: Image, seg: nat, off: int, n: nat, stride: int): seq<int> {
    if seg < |img.vmaddrs| then seq(n, i => (img.vmaddrs[seg] + img.slide + off + i * stride) % TWO64) else []
  }

  lemma {:induction false} CountedIs(img: Image, c: Cursor, n: nat, skip: U64)
    ensures Slots(img, c, n, skip) == Strided(img, c.seg, c.off, n, skip + 8)
    ensures Past(c, n, skip) == Cursor(c.seg, (c.off + n * (skip + 8)) % TWO64)
    decreases n
  {
    if n > 0 {
      var (d, k) := (Move(c, skip + 8), skip + 8);
      CountedIs(img, d, n - 1, skip);
      MovedOn(c.off, k, n - 1);
      hide Slots, Past;
      StridedSplit(img, c, n, k);
      CountedStep(img, c, n, skip);
    }
  }

  lemma CountedStep(img: Image, c: Cursor, n: nat, skip: U64)
    requires n > 0
    ensures Slots(img, c, n, skip) == Slot(img, c) + Slots(img, Move(c, skip + 8), n - 1, skip)
    ensures Past(c, n, skip) == Past(Move(c, skip + 8), n - 1, skip)
  {
  }

  lemma MovedOn(off: int, k: int, n: nat)
    ensures ((off + k) % TWO64 + n * k) % TWO64 == (off + (n + 1) * k) % TWO64
  {
    SumMod(n * k, off + k, TWO64);
    assert n * k + (off + k) == off + (n + 1) * k;
  }

  lemma StridedSplit(img: Image, c: Cursor, n: nat, k: int)
    requires n > 0
    ensures Strided(img, c.seg, c.off, n, k) == Slot(img, c) + Strided(img, c.seg, (c.off + k) % TWO64, n - 1, k)
  {
    if c.seg < |img.vmaddrs| {
      var b := img.vmaddrs[c.seg] + img.slide;
      forall i | 0 <= i < n - 1
        ensures (b + (c.off + k) % TWO64 + i * k) % TWO64 == (b + c.off + (i + 1) * k) % TWO64
      {
        SumMod(b + i * k, c.off + k, TWO64);
        assert b + i * k + (c.off + k) == b + c.off + (i + 1) * k;
      }
    }
  }

  // What one opcode rebases, where it leaves the cursor, and where the next one stands.
  datatype Done1 = Done1(rebased: seq<int>, cursor: Cursor, next: nat)

  // The opcodes of mach-o/loader.h, v and w being the numbers that follow.
  function OpcodeDoes(img: Image, c: Cursor, opcode: nat, imm: nat, v: U64, w: U64, p1: nat, pv: nat, pw: nat): Done1 {
    if opcode == 2 then Done1([], Cursor(imm, v), pv)
    else if opcode == 3 then Done1([], Cursor(c.seg, (c.off + v) % TWO64), pv)
    else if opcode == 4 then Done1([], Cursor(c.seg, (c.off + 8 * imm) % TWO64), p1)
    else if opcode == 5 then Done1(Strided(img, c.seg, c.off, imm, 8), Cursor(c.seg, (c.off + 8 * imm) % TWO64), p1)
    else if opcode == 6 then Done1(Strided(img, c.seg, c.off, v, 8), Cursor(c.seg, (c.off + 8 * v) % TWO64), pv)
    else if opcode == 7 then Done1(Strided(img, c.seg, c.off, 1, 8), Cursor(c.seg, (c.off + v + 8) % TWO64), pv)
    else if opcode == 8 then Done1(Strided(img, c.seg, c.off, v, w + 8), Cursor(c.seg, (c.off + v * (w + 8)) % TWO64), pw)
    else Done1([], c, p1)
  }

  // The decoded operation does what the opcode's numbers say; opcode 0 ends the stream and
  // those from 9 on are unknown.
  lemma OpcodeTable(img: Image, s: seq<U8>, p: nat, c: Cursor)
    requires p < |s|
    ensures var (e, f) := (LebEnd(s, p + 1), Fetch(s, p));
            && Done1(Effect(img, c, f.op), After(c, f.op), f.next)
               == OpcodeDoes(img, c, s[p] / 16, s[p] % 16, Wrap(UlebValue(s, p + 1)), Wrap(UlebValue(s, e)),
                             p + 1, e, LebEnd(s, e))
            && (f.op == Done <==> s[p] / 16 == 0) && (f.op == Unknown <==> s[p] / 16 >= 9)
  {
    hide LebEnd, UlebValue, Slots, Past, Strided, Wrap;
    var f := Fetch(s, p).op;
    if f.Counted? {
      CountedIs(img, c, f.count, f.skip);
      OneStride(img, c, f.skip + 8);
    }
    MoveIs(c);
  }

  lemma OneStride(img: Image, c: Cursor, stride: int)
    ensures Strided(img, c.seg, c.off, 1, stride) == Strided(img, c.seg, c.off, 1, 8)
  {
  }

  lemma MoveIs(c: Cursor)
    ensures forall d: int {:trigger Move(c, d)} :: Move(c, d) == Cursor(c.seg, (c.off + d) % TWO64)
  {
  }

  // --- Effect on memory ---

  function Bump(m: Mem, a: int, slide: U64): Mem {
    Store(m, a, 8, Wrap(Load(m, a, 8) + slide))
  }

  function BumpAll(m: Mem, t: seq<int>, slide: U64): Mem
    decreases |t|
  {
    if t == [] then m else BumpAll(Bump(m, t[0], slide), t[1..], slide)
  }

  lemma {:induction false} BumpAppend(m: Mem, t: seq<int>, u: seq<int>, slide: U64)
    ensures BumpAll(m, t + u, slide) == BumpAll(BumpAll(m, t, slide), u, slide)
    decreases |t|
  {
    if t == [] {
      assert t + u == u;
    } else {
      assert (t + u)[1..] == t[1..] + u;
      BumpAppend(Bump(m, t[0], slide), t[1..], u, slide);
    }
  }

  // --- The machine ---

  // *loc += slide, when the segment exists.
  method RebaseOne(img: Image, m0: Mem, seg: nat, off: U64) returns (m: Mem, applied: nat)
    ensures m == BumpAll(m0, Slot(img, Cursor(seg, off)), img.slide)
    ensures applied == |Slot(img, Cursor(seg, off))|
  {
    hide Store, Load;
    m, applied := m0, 0;
    if seg < |img.vmaddrs| {
      var addr := Wrap(img.vmaddrs[seg] + img.slide + off);
      m, applied := Bump(m0, addr, img.slide), 1;
      assert [addr][1..] == [];
      BumpNone(m, img.slide);
    }
  }

  // One of the counted loops.
  method RebaseTimes(img: Image, m0: Mem, seg: nat, start: U64, n: nat, skip: U64)
    returns (m: Mem, off: U64, applied: nat)
    ensures m == BumpAll(m0, Slots(img, Cursor(seg, start), n, skip), img.slide)
    ensures Cursor(seg, off) == Past(Cursor(seg, start), n, skip)
    ensures applied == |Slots(img, Cursor(seg, start), n, skip)|
  {
    hide Store, Load, Bump;
    m, off, applied := m0, start, 0;
    var i := 0;
    while i < n
      invariant 0 <= i <= n
      invariant BumpAll(m, Slots(img, Cursor(seg, off), n - i, skip), img.slide)
             == BumpAll(m0, Slots(img, Cursor(seg, start), n, skip), img.slide)
      invariant Past(Cursor(seg, off), n - i, skip) == Past(Cursor(seg, start), n, skip)
      invariant applied + |Slots(img, Cursor(seg, off), n - i, skip)| == |Slots(img, Cursor(seg, start), n, skip)|
    {
      var c := Cursor(seg, off);
      BumpAppend(m, Slot(img, c), Slots(img, Move(c, skip + 8), n - i - 1, skip), img.slide);
      var k;
      m, k := RebaseOne(img, m, seg, off);
      applied := applied + k;
      off := Wrap(off + (skip + 8));
      i := i + 1;
    }
  }

  // What the machine still has to do, as part of everything it has to do.
  ghost predicate Progress(img: Image, s: seq<U8>, m0: Mem, m: Mem, applied: nat, ops: seq<Op>, c: Cursor)
  {
    var all := Addresses(img, Parse(s, 0), Cursor(0, 0));
    && BumpAll(m, Addresses(img, ops, c), img.slide) == BumpAll(m0, all, img.slide)
    && applied + |Addresses(img, ops, c)| == |all|
    && (Unknown in ops <==> Unknown in Parse(s, 0))
  }

  lemma Advance(img: Image, s: seq<U8>, m0: Mem, m: Mem, applied: nat, p: nat, c: Cursor)
    requires p < |s| && Progress(img, s, m0, m, applied, Parse(s, p), c)
    ensures var f := Fetch(s, p);
            var e := Effect(img, c, f.op);
            && (Final(f.op) ==> Progress(img, s, m0, m, applied, [f.op], c))
            && (!Final(f.op) ==>
                  Progress(img, s, m0, BumpAll(m, e, img.slide), applied + |e|, Parse(s, f.next), After(c, f.op)))
  {
    hide Fetch, Bump, BumpAll, Slots, Past, After;
    var f := Fetch(s, p);
    if Final(f.op) {
      assert Parse(s, p) == [f.op];
    } else {
      assert Parse(s, p)[1..] == Parse(s, f.next);
      assert Unknown in Parse(s, p) <==> Unknown in Parse(s, f.next);
      BumpAppend(m, Effect(img, c, f.op), Addresses(img, Parse(s, f.next), After(c, f.op)), img.slide);
    }
  }

  // One turn of the switch. seg and off are left alone by an operation that ends the run.
  method Turn(img: Image, m0: Mem, s: seq<U8>, start: nat, seg0: nat, off0: U64)
    returns (op: Op, m: Mem, p: nat, seg: nat, off: U64, applied: nat)
    requires start < |s|
    ensures op == Fetch(s, start).op && p == Fetch(s, start).next
    ensures m == BumpAll(m0, Effect(img, Cursor(seg0, off0), op), img.slide)
    ensures applied == |Effect(img, Cursor(seg0, off0), op)|
    ensures Cursor(seg, off) == After(Cursor(seg0, off0), op)
  {
    BumpNone(m0, img.slide);
    hide LebEnd, UlebValue, Bump, BumpAll;
    var opcode, imm := s[start] / 16, s[start] % 16;
    m, p, seg, off, applied := m0, start + 1, seg0, off0, 0;
    match opcode
    case 0 =>
      op := Done;
    case 1 =>
      op := SetType(imm);
    case 2 =>
      seg := imm;
      off, p := ReadUleb(s, p);
      op := SetSegment(imm, off);
    case 3 =>
      var delta;
      delta, p := ReadUleb(s, p);
      off := Wrap(off + delta);
      op := AddAddr(delta);
    case 4 =>
      off := Wrap(off + imm * 8);
      op := AddAddr(imm * 8);
    case 5 =>
      m, off, applied := RebaseTimes(img, m, seg, off, imm, 0);
      op := Counted(imm, 0);
    case 6 =>
      var n;
      n, p := ReadUleb(s, p);
      m, off, applied := RebaseTimes(img, m, seg, off, n, 0);
      op := Counted(n, 0);
    case 7 =>
      m, applied := RebaseOne(img, m, seg, off);
      var skip: int;
      skip, p := ReadUleb(s, p);
      SlotsOnce(img, Cursor(seg, off), skip);
      off := Wrap(off + (skip + 8));
      op := Counted(1, skip);
    case 8 =>
      var n, skip;
      n, p := ReadUleb(s, p);
      skip, p := ReadUleb(s, p);
      m, off, applied := RebaseTimes(img, m, seg, off, n, skip);
      op := Counted(n, skip);
    case _ =>
      op := Unknown;
  }

  lemma SlotsOnce(img: Image, c: Cursor, skip: U64)
    ensures Slots(img, c, 1, skip) == Slot(img, c)
    ensures Past(c, 1, skip) == Move(c, skip + 8)
  {
    var d := Move(c, skip + 8);
    assert Slots(img, d, 0, skip) == [] && Past(d, 0, skip) == d;
  }

  // process_dyld_info's rebase loop. ok is false where the source returns -1.
  method Run(img: Image, m0: Mem, s: seq<U8>) returns (ok: bool, m: Mem, applied: nat)
    ensures m == BumpAll(m0, Addresses(img, Parse(s, 0), Cursor(0, 0)), img.slide)
    ensures applied == |Addresses(img, Parse(s, 0), Cursor(0, 0))|
    ensures ok <==> Unknown !in Parse(s, 0)
  {
    var p, seg: nat, off: U64, done := 0, 0, 0, false;
    m, applied := m0, 0;
    hide Fetch, BumpAll, Effect, After;
    while p < |s| && !done
      invariant p <= |s|
      invariant !done ==> Progress(img, s, m0, m, applied, Parse(s, p), Cursor(seg, off))
      invariant done ==> Progress(img, s, m0, m, applied, [Done], Cursor(seg, off))
      decreases |s| - p
    {
      Advance(img, s, m0, m, applied, p, Cursor(seg, off));
      FinalIdle(img, m, Cursor(seg, off), Fetch(s, p).op);
      var op, k;
      op, m, p, seg, off, k := Turn(img, m, s, p, seg, off);
      applied := applied + k;
      if op.Unknown? {
        Stopped(img, s, m0, m, applied, [op], Cursor(seg, off));
        return false, m, applied;
      }
      done := op.Done?;
    }
    Stopped(img, s, m0, m, applied, if done then [Done] else [], Cursor(seg, off));
    ok := true;
  }

  lemma FinalIdle(img: Image, m: Mem, c: Cursor, op: Op)
    ensures Final(op) ==> Effect(img, c, op) == [] && After(c, op) == c && BumpAll(m, [], img.slide) == m
  {
  }

  lemma BumpNone(m: Mem, slide: U64)
    ensures BumpAll(m, [], slide) == m
  {
  }

  lemma Stopped(img: Image, s: seq<U8>, m0: Mem, m: Mem, applied: nat, ops: seq<Op>, c: Cursor)
    requires Progress(img, s, m0, m, applied, ops, c)
    requires ops == [] || Final(ops[0])
    ensures m == BumpAll(m0, Addresses(img, Parse(s, 0), Cursor(0, 0)), img.slide)
    ensures applied == |Addresses(img, Parse(s, 0), Cursor(0, 0))|
    ensures Unknown in ops <==> Unknown in Parse(s, 0)
  {
    BumpNone(m, img.slide);
  }

  // --- Results ---

  // Every counted operation is that many single ones.
  function Singles(n: nat, skip: U64): seq<Op>
    decreases n
  {
    if n == 0 then [] else [Counted(1, skip)] + Singles(n - 1, skip)
  }

  function Expanded(ops: seq<Op>): seq<Op> {
    if ops == [] || Final(ops[0]) then []
    else (if ops[0].Counted? then Singles(ops[0].count, ops[0].skip) else [ops[0]]) + Expanded(ops[1..])
  }

  lemma {:induction false} SinglesMean(img: Image, c: Cursor, n: nat, skip: U64, rest: seq<Op>)
    ensures Addresses(img, Singles(n, skip) + rest, c)
         == Slots(img, c, n, skip) + Addresses(img, rest, Past(c, n, skip))
    decreases n
  {
    if n == 0 {
      assert Singles(n, skip) + rest == rest;
    } else {
      var all := Singles(n, skip) + rest;
      assert all[0] == Counted(1, skip) && all[1..] == Singles(n - 1, skip) + rest;
      SlotsOnce(img, c, skip);
      hide Slot, Move;
      SinglesMean(img, Move(c, skip + 8), n - 1, skip, rest);
    }
  }

  lemma {:induction false} ExpansionMeansTheSame(img: Image, ops: seq<Op>, c: Cursor)
    ensures Addresses(img, Expanded(ops), c) == Addresses(img, ops, c)
    decreases |ops|
  {
    if ops != [] && !Final(ops[0]) {
      ExpansionMeansTheSame(img, ops[1..], After(c, ops[0]));
      if ops[0].Counted? {
        SinglesMean(img, c, ops[0].count, ops[0].skip, Expanded(ops[1..]));
      } else {
        assert Expanded(ops) == [ops[0]] + Expanded(ops[1..]);
        assert Expanded(ops)[1..] == Expanded(ops[1..]);
      }
    }
  }

  // The alignment a well-formed image has.
  predicate AlignedOp(op: Op) {
    match op
    case SetSegment(_, o) => o % 8 == 0
    case AddAddr(d) => d % 8 == 0
    case Counted(_, k) => k % 8 == 0
    case _ => true
  }

  predicate AllAligned(t: seq<int>) {
    forall i :: 0 <= i < |t| ==> t[i] % 8 == 0
  }

  predicate AlignedImage(img: Image) {
    img.slide % 8 == 0 && AllAligned(img.vmaddrs)
  }

  lemma WrapAligned(x: int)
    requires x % 8 == 0
    ensures Wrap(x) % 8 == 0
  {
    ModOfMod(x, 8, TWO64 / 8);
  }

  lemma StepAligned(img: Image, c: Cursor, skip: U64)
    requires AlignedImage(img) && c.off % 8 == 0 && skip % 8 == 0
    ensures AllAligned(Slot(img, c)) && Move(c, skip + 8).off % 8 == 0
  {
    WrapAligned(c.off + (skip + 8));
    if c.seg < |img.vmaddrs| {
      WrapAligned(img.vmaddrs[c.seg] + img.slide + c.off);
    }
  }

  lemma {:induction false} SlotsAligned(img: Image, c: Cursor, n: nat, skip: U64)
    requires AlignedImage(img) && c.off % 8 == 0 && skip % 8 == 0
    ensures AllAligned(Slots(img, c, n, skip))
    ensures Past(c, n, skip).off % 8 == 0
    decreases n
  {
    if n != 0 {
      StepAligned(img, c, skip);
      hide Slot, Move, AlignedImage;
      SlotsAligned(img, Move(c, skip + 8), n - 1, skip);
    }
  }

  lemma {:induction false} AddressesAligned(img: Image, ops: seq<Op>, c: Cursor)
    requires AlignedImage(img) && c.off % 8 == 0
    requires forall i :: 0 <= i < |ops| ==> AlignedOp(ops[i])
    ensures AllAligned(Addresses(img, ops, c))
    decreases |ops|
  {
    if ops != [] && !Final(ops[0]) {
      match ops[0] {
        case Counted(n, k) => SlotsAligned(img, c, n, k);
        case AddAddr(d) => WrapAligned(c.off + d);
        case _ =>
      }
      hide Slots, Past;
      AddressesAligned(img, ops[1..], After(c, ops[0]));
    }
  }

  lemma BumpWord(m: Mem, a: int, slide: U64, w: int)
    requires a % 8 == 0 && w % 8 == 0
    ensures Load(Bump(m, a, slide), w, 8) == if w == a then Wrap(Load(m, w, 8) + slide) else Load(m, w, 8)
  {
    var v := Wrap(Load(m, a, 8) + slide);
    if w == a {
      LoadStored(m, a, 8, v);
      Pow2Values();
      ModTwice(Load(m, a, 8) + slide);
    } else {
      LoadElsewhere(m, a, 8, v, w, 8);
    }
  }

  // original + slide * occurrences
  function Raised(x: int, n: nat, slide: U64): U64 {
    Wrap(x + n * slide)
  }

  lemma RaisedOnce(x: int, n: nat, slide: U64)
    ensures Raised(Wrap(x + slide), n, slide) == Raised(x, n + 1, slide)
  {
    SumMod(n * slide, x + slide, TWO64);
    assert x + (n + 1) * slide == n * slide + (x + slide);
  }

  // Each aligned word ends as its original value plus the slide once per occurrence
  // of its address.
  lemma {:induction false} RebasedWord(m: Mem, t: seq<int>, slide: U64, w: int)
    requires w % 8 == 0
    requires AllAligned(t)
    ensures Load(BumpAll(m, t, slide), w, 8) == Raised(Load(m, w, 8), multiset(t)[w], slide)
    decreases |t|
  {
    hide Load, Bump, Wrap, Raised;
    if t == [] {
      WordFits(m, w, slide);
    } else {
      var (a, u) := (t[0], t[1..]);
      assert t == [a] + u;
      BumpWord(m, a, slide, w);
      RebasedWord(Bump(m, a, slide), u, slide, w);
      assert multiset(t) == multiset{a} + multiset(u);
      if w == a {
        RaisedOnce(Load(m, w, 8), multiset(u)[w], slide);
      }
    }
  }

  lemma WordFits(m: Mem, w: int, slide: U64)
    ensures Load(m, w, 8) == Raised(Load(m, w, 8), 0, slide)
  {
    LoadBound(m, w, 8);
    Pow2Values();
  }

  // Bytes of words that do not occur keep their value.
  lemma {:induction false} OtherByte(m: Mem, t: seq<int>, slide: U64, b: int)
    requires AllAligned(t)
    requires b - b % 8 !in t
    ensures Byte(BumpAll(m, t, slide), b) == Byte(m, b)
    decreases |t|
  {
    if t != [] {
      var a := t[0];
      assert a in t;
      StoreElsewhere(m, a, 8, Wrap(Load(m, a, 8) + slide), b);
      OtherByte(Bump(m, a, slide), t[1..], slide, b);
    }
  }

  // A run over an aligned image and stream, stated on the bytes of the stream.
  lemma AlignedRun(img: Image, m: Mem, s: seq<U8>, w: int)
    requires AlignedImage(img) && w % 8 == 0
    requires forall i :: 0 <= i < |Parse(s, 0)| ==> AlignedOp(Parse(s, 0)[i])
    ensures var t := Addresses(img, Expanded(Parse(s, 0)), Cursor(0, 0));
            var m' := BumpAll(m, Addresses(img, Parse(s, 0), Cursor(0, 0)), img.slide);
            && Load(m', w, 8) == Raised(Load(m, w, 8), multiset(t)[w], img.slide)
            && (w !in t ==> forall b :: w <= b < w + 8 ==> Byte(m', b) == Byte(m, b))
  {
    hide Parse, AlignedOp, AlignedImage, Addresses, BumpAll, Expanded, Load;
    var ops := Parse(s, 0);
    var t := Addresses(img, ops, Cursor(0, 0));
    ExpansionMeansTheSame(img, ops, Cursor(0, 0));
    AddressesAligned(img, ops, Cursor(0, 0));
    RebasedWord(m, t, img.slide, w);
    if w !in t {
      forall b | w <= b < w + 8
        ensures Byte(BumpAll(m, t, img.slide), b) == Byte(m, b)
      {
        OtherByte(m, t, img.slide, b);
      }
    }
  }

  // --- The encoding of an operation list, which the machine reads back ---

  predicate Encodable(op: Op) {
    match op
    case SetType(k) => k < 16
    case SetSegment(i, _) => i < 16
    case Unknown => false
    case _ => true
  }

  function Bytes(op: Op): seq<U8>
    requires Encodable(op)
  {
    match op
    case Done => [0]
    case SetType(k) => [0x10 + k]
    case SetSegment(i, o) => [0x20 + i] + Uleb(o)
    case AddAddr(d) => [0x30] + Uleb(d)
    case Counted(n, k) => [0x80] + Uleb(n) + Uleb(k)
  }

  // A list the machine reads to its end: only the last operation may be Done.
  predicate Stream(ops: seq<Op>) {
    ops == [] || (Encodable(ops[0]) && (ops[0].Done? ==> |ops| == 1) && Stream(ops[1..]))
  }

  function AllBytes(ops: seq<Op>): seq<U8>
    requires Stream(ops)
  {
    if ops == [] then [] else Bytes(ops[0]) + AllBytes(ops[1..])
  }

  lemma FetchCounted(a: seq<U8>, n: U64, k: U64, b: seq<U8>)
    ensures Fetch(a + ([0x80] + Uleb(n) + Uleb(k)) + b, |a|) == Fetched(Counted(n, k), |a| + 1 + |Uleb(n)| + |Uleb(k)|)
  {
    hide LebEnd, UlebValue, Uleb, Fetch;
    Regroup(a, [0x80], Uleb(n), Uleb(k), b);
    FetchUleb(a, 0x80, n, Uleb(k) + b);
    UlebRoundTrip(a + [0x80] + Uleb(n), k, b);
    FetchSkipping(a + ([0x80] + Uleb(n) + Uleb(k)) + b, |a|, |a| + 1 + |Uleb(n)|);
  }

  lemma FetchSkipping(s: seq<U8>, p: nat, e: nat)
    requires p < |s| && s[p] == 0x80 && e == LebEnd(s, p + 1)
    ensures Fetch(s, p) == Fetched(Counted(Wrap(UlebValue(s, p + 1)), Wrap(UlebValue(s, e))), LebEnd(s, e))
  {
  }

  lemma FetchBytes(a: seq<U8>, op: Op, b: seq<U8>)
    requires Encodable(op)
    ensures Fetch(a + Bytes(op) + b, |a|) == Fetched(op, |a| + |Bytes(op)|)
  {
    hide LebEnd, UlebValue, Uleb;
    match op
    case Done =>
    case SetType(k) =>
    case SetSegment(i, o) => FetchUleb(a, 0x20 + i, o, b);
    case AddAddr(d) => FetchUleb(a, 0x30, d, b);
    case Counted(n, k) => FetchCounted(a, n, k, b);
  }

  lemma {:induction false} ParseBytes(s: seq<U8>, p: nat, ops: seq<Op>)
    requires p <= |s| && Stream(ops) && s[p..] == AllBytes(ops)
    ensures Parse(s, p) == ops
    decreases |ops|
  {
    hide Fetch, Bytes;
    if ops != [] {
      var (op, rest) := (ops[0], ops[1..]);
      Cut(s, p, Bytes(op), AllBytes(rest));
      FetchBytes(s[..p], op, AllBytes(rest));
      ParseBytes(s, p + |Bytes(op)|, rest);
      assert ops == [op] + rest;
    }
  }
}
