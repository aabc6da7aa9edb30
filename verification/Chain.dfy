// The chained-pointer walker of resolver.c (walk_chain) for DYLD_CHAINED_PTR_64 and
// DYLD_CHAINED_PTR_64_OFFSET.
module Chain {
  import opened Bits
  import opened Memory

  // FIXUP_PTR_* and FIXUP_*: bind 63, next 62-51, then either high8 43-36 and
  // target 35-0, or addend 31-24 and ordinal 23-0.
  function Next(raw: nat): nat {
    raw / 0x8_0000_0000_0000 % 0x1000
  }

  predicate IsBind(raw: nat) {
    raw / 0x8000_0000_0000_0000 % 2 == 1
  }

  function Ordinal(raw: nat): nat {
    raw % 0x100_0000
  }

  // (int8_t): the sign of an 8-bit field
  function Addend(raw: nat): int {
    var b := raw / 0x100_0000 % 0x100;
    if b < 128 then b else b - 256
  }

  function Target(raw: nat): nat {
    raw % 0x10_0000_0000
  }

  function High8(raw: nat): nat {
    raw / 0x10_0000_0000 % 0x100
  }

  // What the walk depends on: the pointer format, the two bases and the resolution
  // of (ordinal, addend) for the pointer at an address.
  datatype Context = Context(isOffset: bool, mh: U64, slide: U64, resolve: (nat, int, int) -> U64)

  function Rebased(ctx: Context, target: nat): U64 {
    Wrap(target + if ctx.isOffset then ctx.mh else ctx.slide)
  }

  // What the pointer at loc becomes.
  function Fixed(ctx: Context, raw: nat, loc: int): U64 {
    if IsBind(raw) then ctx.resolve(Ordinal(raw), Addend(raw), loc)
    else Or64(Rebased(ctx, Target(raw)), High8(raw) * 0x100_0000_0000_0000)
  }

  // Nothing is mapped at or above limit.
  ghost predicate Below(m: Mem, limit: int) {
    forall b :: limit <= b ==> Byte(m, b) == 0
  }

  // The slots of the chain that starts at loc, as memory holds it now.
  ghost function Slots(m: Mem, loc: int, limit: int): (r: seq<int>)
    requires Below(m, limit)
    ensures |r| > 0 && r[0] == loc
    decreases limit - loc
  {
    NextMapped(m, loc, limit);
    var next := Next(Load(m, loc, 8));
    if next == 0 then [loc] else [loc] + Slots(m, loc + next * 4, limit)
  }

  lemma Halves(m: Mem, a: int)
    ensures Load(m, a, 4) < TWO32
    ensures Load(m, a, 8) == Load(m, a, 4) + TWO32 * Load(m, a + 4, 4)
  {
    LoadBound(m, a, 4);
    Pow2Values();
    SplitLoad(m, a, a + 4, a + 8);
  }

  lemma Rescale(b: int, x: int, p: int, h: int)
    ensures b + 0x100 * (x + p * h) == b + 0x100 * x + (0x100 * p) * h
  {
  }

  lemma {:induction false} SplitLoad(m: Mem, lo: int, mid: int, hi: int)
    requires lo <= mid <= hi
    ensures LoadRange(m, lo, hi) == LoadRange(m, lo, mid) + Pow2(8 * (mid - lo)) * LoadRange(m, mid, hi)
    decreases mid - lo
  {
    if lo < mid {
      Pow2Byte(mid - lo);
      hide Pow2;
      SplitLoad(m, lo + 1, mid, hi);
      Rescale(Byte(m, lo), LoadRange(m, lo + 1, mid), Pow2(8 * (mid - lo - 1)), LoadRange(m, mid, hi));
    }
  }

  // The next field and the bind bit lie in the upper half of the word.
  lemma UpperHalf(lo: nat, hi: nat)
    requires lo < TWO32
    ensures Next(lo + TWO32 * hi) == hi / 0x8_0000 % 0x1000
    ensures IsBind(lo + TWO32 * hi) <==> hi / 0x8000_0000 % 2 == 1
  {
    var raw := lo + TWO32 * hi;
    DivModUnique(raw, 0x8_0000_0000_0000, hi / 0x8_0000, lo + TWO32 * (hi % 0x8_0000));
    DivModUnique(raw, 0x8000_0000_0000_0000, hi / 0x8000_0000, lo + TWO32 * (hi % 0x8000_0000));
  }

  // A slot with a successor is mapped.
  lemma NextMapped(m: Mem, loc: int, limit: int)
    requires Below(m, limit)
    ensures Next(Load(m, loc, 8)) != 0 ==> loc < limit
  {
    if limit <= loc {
      LoadAgree(m, map[], loc, 8);
      LoadZero(loc, loc + 8);
    }
  }

  lemma {:induction false} LoadZero(lo: int, hi: int)
    ensures LoadRange(map[], lo, hi) == 0
    decreases hi - lo
  {
    if lo < hi {
      LoadZero(lo + 1, hi);
    }
  }

  // --- The walk ---

  function Fix(ctx: Context, m: Mem, loc: int): Mem {
    Store(m, loc, 8, Fixed(ctx, Load(m, loc, 8), loc))
  }

  function FixAll(ctx: Context, m: Mem, slots: seq<int>): Mem
    decreases |slots|
  {
    if slots == [] then m else FixAll(ctx, Fix(ctx, m, slots[0]), slots[1..])
  }

  function Rebases(m: Mem, slots: seq<int>): nat {
    if slots == [] then 0
    else (if IsBind(Load(m, slots[0], 8)) then 0 else 1) + Rebases(m, slots[1..])
  }

  // m differs from m0 only below a.
  ghost predicate SameFrom(m0: Mem, m: Mem, a: int) {
    forall b :: a <= b ==> Byte(m, b) == Byte(m0, b)
  }

  lemma FixBelow(ctx: Context, m0: Mem, m: Mem, loc: int, a: int)
    requires SameFrom(m0, m, a) && loc + 8 >= a
    ensures SameFrom(m0, Fix(ctx, m, loc), loc + 8)
  {
    forall b | loc + 8 <= b
      ensures Byte(Fix(ctx, m, loc), b) == Byte(m0, b)
    {
      StoreElsewhere(m, loc, 8, Fixed(ctx, Load(m, loc, 8), loc), b);
    }
  }

  // Whatever was written before, a slot at least 4 bytes on still shows its own next
  // field and bind bit.
  lemma SameUpper(m0: Mem, m: Mem, loc: int)
    requires SameFrom(m0, m, loc + 4)
    ensures Next(Load(m, loc, 8)) == Next(Load(m0, loc, 8))
    ensures IsBind(Load(m, loc, 8)) <==> IsBind(Load(m0, loc, 8))
  {
    Halves(m, loc);
    Halves(m0, loc);
    LoadAgree(m, m0, loc + 4, 4);
    UpperHalf(Load(m, loc, 4), Load(m, loc + 4, 4));
    UpperHalf(Load(m0, loc, 4), Load(m0, loc + 4, 4));
  }

  // walk_chain: it follows exactly the chain that memory held at the start.
  method Walk(ctx: Context, m0: Mem, start: int, ghost limit: int) returns (m: Mem, applied: nat)
    requires Below(m0, limit)
    ensures m == FixAll(ctx, m0, Slots(m0, start, limit))
    ensures applied == Rebases(m0, Slots(m0, start, limit))
  {
    var loc, more := start, true;
    m, applied := m0, 0;
    hide Load, Store, Fix, Next, IsBind, SameFrom;
    assert SameFrom(m0, m, start + 4) by { SameStart(m0, start + 4); }
    while more
      invariant more ==> SameFrom(m0, m, loc + 4)
      invariant FixAll(ctx, m, if more then Slots(m0, loc, limit) else []) == FixAll(ctx, m0, Slots(m0, start, limit))
      invariant applied + Rebases(m0, if more then Slots(m0, loc, limit) else []) == Rebases(m0, Slots(m0, start, limit))
      decreases more, limit - loc
    {
      var raw := Load(m, loc, 8);
      var next := Next(raw);
      SameUpper(m0, m, loc);
      NextMapped(m0, loc, limit);
      assert Slots(m0, loc, limit)[1..] == if next == 0 then [] else Slots(m0, loc + next * 4, limit);
      FixBelow(ctx, m0, m, loc, loc + 4);
      m := Fix(ctx, m, loc);
      if !IsBind(raw) {
        applied := applied + 1;
      }
      if next == 0 {
        more := false;
      } else {
        loc := loc + next * 4;
        SameFromWeaker(m0, m, loc - next * 4 + 8, loc + 4);
      }
    }
  }

  lemma SameStart(m: Mem, a: int)
    ensures SameFrom(m, m, a)
  {
  }

  lemma SameFromWeaker(m0: Mem, m: Mem, a: int, b: int)
    requires SameFrom(m0, m, a) && a <= b
    ensures SameFrom(m0, m, b)
  {
  }

  // --- Results ---

  // Successive slots are at least one pointer apart.
  predicate Spaced(slots: seq<int>) {
    |slots| <= 1 || (slots[0] + 8 <= slots[1] && Spaced(slots[1..]))
  }

  lemma {:induction false} SpacedFrom(slots: seq<int>, k: nat)
    requires Spaced(slots) && k < |slots|
    ensures k > 0 ==> slots[0] + 8 <= slots[k]
    decreases k
  {
    if k > 0 {
      SpacedFrom(slots[1..], k - 1);
    }
  }

  // Each slot's word is fixed up from what it held before the walk.
  lemma {:induction false} WordFixed(ctx: Context, m: Mem, slots: seq<int>, k: nat)
    requires Spaced(slots) && k < |slots|
    ensures Load(FixAll(ctx, m, slots), slots[k], 8) == Fixed(ctx, Load(m, slots[k], 8), slots[k])
    decreases k
  {
    hide Fixed;
    var (a, v) := (slots[0], Fixed(ctx, Load(m, slots[0], 8), slots[0]));
    if k == 0 {
      LoadStored(m, a, 8, v);
      Pow2Values();
      hide Load;
      WordKept(ctx, Fix(ctx, m, a), slots[1..], a, a + 8);
    } else {
      SpacedFrom(slots, k);
      LoadElsewhere(m, a, 8, v, slots[k], 8);
      hide Load, Store;
      WordFixed(ctx, Fix(ctx, m, a), slots[1..], k - 1);
    }
  }

  // The slots leave everything below them alone.
  lemma WordKept(ctx: Context, m: Mem, slots: seq<int>, a: int, first: int)
    requires Spaced(slots) && a + 8 <= first && (slots != [] ==> first <= slots[0])
    ensures Load(FixAll(ctx, m, slots), a, 8) == Load(m, a, 8)
  {
    forall b | a <= b < a + 8
      ensures Byte(FixAll(ctx, m, slots), b) == Byte(m, b)
    {
      forall k | 0 <= k < |slots|
        ensures b < slots[k] || slots[k] + 8 <= b
      {
        SpacedFrom(slots, k);
      }
      OtherByte(ctx, m, slots, b);
    }
    LoadAgree(FixAll(ctx, m, slots), m, a, 8);
  }

  // A byte of no slot keeps its value, however the slots are spaced.
  lemma {:induction false} OtherByte(ctx: Context, m: Mem, slots: seq<int>, b: int)
    requires forall k :: 0 <= k < |slots| ==> b < slots[k] || slots[k] + 8 <= b
    ensures Byte(FixAll(ctx, m, slots), b) == Byte(m, b)
    decreases |slots|
  {
    if slots != [] {
      var a := slots[0];
      StoreElsewhere(m, a, 8, Fixed(ctx, Load(m, a, 8), a), b);
      hide Fixed, Load, Store;
      OtherByte(ctx, Fix(ctx, m, a), slots[1..], b);
    }
  }

  // --- Chains that encode a list of fixups ---

  datatype Fixup = Rebase(target: nat, high8: nat) | Bind(ordinal: nat, addend: int)

  predicate Encodable(f: Fixup) {
    match f
    case Rebase(t, h) => t < 0x10_0000_0000 && h < 0x100
    case Bind(o, a) => o < 0x100_0000 && -128 <= a < 128
  }

  function Raw(f: Fixup, next: nat): nat
    requires Encodable(f) && next < 0x1000
  {
    next * 0x8_0000_0000_0000 +
    match f
    case Rebase(t, h) => t + h * 0x10_0000_0000
    case Bind(o, a) => 0x8000_0000_0000_0000 + o + (a % 0x100) * 0x100_0000
  }

  // What the fixup at loc stands for.
  function Meaning(ctx: Context, f: Fixup, loc: int): U64
    requires Encodable(f)
  {
    match f
    case Rebase(t, h) => Or64(if ctx.isOffset then Wrap(ctx.mh + t) else Wrap(t + ctx.slide), h * 0x100_0000_0000_0000)
    case Bind(o, a) => ctx.resolve(o, a, loc)
  }

  lemma RawRebase(t: nat, h: nat, next: nat)
    requires t < 0x10_0000_0000 && h < 0x100 && next < 0x1000
    ensures var raw := Raw(Rebase(t, h), next);
            Next(raw) == next && !IsBind(raw) && Target(raw) == t && High8(raw) == h
  {
    var raw := Raw(Rebase(t, h), next);
    DivModUnique(raw, 0x8_0000_0000_0000, next, t + h * 0x10_0000_0000);
    DivModUnique(raw, 0x10_0000_0000, h + next * 0x8000, t);
    DivModUnique(h + next * 0x8000, 0x100, next * 0x80, h);
  }

  lemma RawBind(o: nat, a: int, next: nat)
    requires o < 0x100_0000 && -128 <= a < 128 && next < 0x1000
    ensures var raw := Raw(Bind(o, a), next);
            Next(raw) == next && IsBind(raw) && Ordinal(raw) == o && Addend(raw) == a
  {
    var raw := Raw(Bind(o, a), next);
    var low := o + (a % 0x100) * 0x100_0000;
    DivModUnique(raw, 0x8_0000_0000_0000, 0x1000 + next, low);
    DivModUnique(0x1000 + next, 0x1000, 1, next);
    DivModUnique(raw, 0x8000_0000_0000_0000, 1, next * 0x8_0000_0000_0000 + low);
    DivModUnique(raw, 0x100_0000, a % 0x100 + (0x1000 + next) * 0x800_0000, o);
    DivModUnique(a % 0x100 + (0x1000 + next) * 0x800_0000, 0x100, (0x1000 + next) * 0x8_0000, a % 0x100);
  }

  lemma RawFixed(ctx: Context, f: Fixup, next: nat, loc: int)
    requires Encodable(f) && next < 0x1000
    ensures Next(Raw(f, next)) == next
    ensures Fixed(ctx, Raw(f, next), loc) == Meaning(ctx, f, loc)
  {
    match f
    case Rebase(t, h) => RawRebase(t, h, next);
    case Bind(o, a) => RawBind(o, a, next);
  }

  // Where the fixups of a list lie, given their strides in 4-byte units.
  function Places(loc: int, strides: seq<nat>): seq<int>
    decreases |strides|
  {
    if strides == [] then [loc] else [loc] + Places(loc + strides[0] * 4, strides[1..])
  }

  // Memory holds the list at loc: each word carries its fixup and the stride to the
  // next one, the last a stride of 0.
  ghost predicate Holds(m: Mem, loc: int, fs: seq<Fixup>, strides: seq<nat>)
    decreases |strides|
  {
    && |fs| == |strides| + 1 && Encodable(fs[0])
    && if strides == [] then Load(m, loc, 8) == Raw(fs[0], 0)
       else 2 <= strides[0] < 0x1000 && Load(m, loc, 8) == Raw(fs[0], strides[0])
            && Holds(m, loc + strides[0] * 4, fs[1..], strides[1..])
  }

  lemma {:induction false} HoldsPlaces(m: Mem, loc: int, fs: seq<Fixup>, strides: seq<nat>, limit: int)
    requires Below(m, limit) && Holds(m, loc, fs, strides)
    ensures Slots(m, loc, limit) == Places(loc, strides) && |Places(loc, strides)| == |fs|
    ensures Spaced(Places(loc, strides)) && Places(loc, strides)[0] == loc
    decreases |strides|
  {
    hide Raw, Load, Next;
    if strides == [] {
      RawNext(fs[0], 0);
    } else {
      RawNext(fs[0], strides[0]);
      HoldsPlaces(m, loc + strides[0] * 4, fs[1..], strides[1..], limit);
      assert Places(loc, strides)[1..] == Places(loc + strides[0] * 4, strides[1..]);
    }
  }

  lemma RawNext(f: Fixup, next: nat)
    requires Encodable(f) && next < 0x1000
    ensures Next(Raw(f, next)) == next
  {
    match f
    case Rebase(t, h) => RawRebase(t, h, next);
    case Bind(o, a) => RawBind(o, a, next);
  }

  lemma {:induction false} HoldsWord(m: Mem, loc: int, fs: seq<Fixup>, strides: seq<nat>, k: nat)
    requires Holds(m, loc, fs, strides) && k < |fs| && |Places(loc, strides)| == |fs|
    ensures Encodable(fs[k])
    ensures var next := if k < |strides| then strides[k] else 0;
            next < 0x1000 && Load(m, Places(loc, strides)[k], 8) == Raw(fs[k], next)
    decreases k
  {
    hide Raw, Load, Encodable;
    if k > 0 {
      HoldsWord(m, loc + strides[0] * 4, fs[1..], strides[1..], k - 1);
    }
  }

  // Walking a chain that encodes a list visits its places in order, each once, and
  // leaves at each what its fixup stands for; all other bytes keep their value.
  lemma WalkMeaning(ctx: Context, m: Mem, loc: int, fs: seq<Fixup>, strides: seq<nat>, limit: int, k: nat)
    requires Below(m, limit) && Holds(m, loc, fs, strides) && k < |fs|
    ensures var places := Places(loc, strides);
            var m' := FixAll(ctx, m, Slots(m, loc, limit));
            && Slots(m, loc, limit) == places && |places| == |fs| && Spaced(places)
            && Encodable(fs[k])
            && Load(m', places[k], 8) == Meaning(ctx, fs[k], places[k])
            && forall b :: (forall i :: 0 <= i < |places| ==> b < places[i] || places[i] + 8 <= b) ==>
                 Byte(m', b) == Byte(m, b)
  {
    hide Load, Raw, Fixed, Meaning, FixAll, Holds, Encodable;
    HoldsPlaces(m, loc, fs, strides, limit);
    HoldsWord(m, loc, fs, strides, k);
    WordFixed(ctx, m, Places(loc, strides), k);
    forall b | forall i :: 0 <= i < |Places(loc, strides)| ==>
                 b < Places(loc, strides)[i] || Places(loc, strides)[i] + 8 <= b
      ensures Byte(FixAll(ctx, m, Places(loc, strides)), b) == Byte(m, b)
    {
      OtherByte(ctx, m, Places(loc, strides), b);
    }
    RawFixed(ctx, fs[k], if k < |strides| then strides[k] else 0, Places(loc, strides)[k]);
  }

  // The low 56 bits of a pointer with its top byte set are its own; when the top byte was
  // clear, it is high8.
  lemma HighByte(v: U64, h: nat)
    requires h < 0x100
    ensures var r := Or64(v, h * 0x100_0000_0000_0000);
            && (v < 0x100_0000_0000_0000 ==> r == v + h * 0x100_0000_0000_0000)
            && r % 0x100_0000_0000_0000 == v % 0x100_0000_0000_0000
  {
    Pow2Fifty();
    if v < Pow2(56) {
      OrDisjoint(56, v, h);
    }
    BitwiseLow(Or, 56, v, h * Pow2(56));
    DivModUnique(h * Pow2(56), Pow2(56), h, 0);
    OrZero(v % Pow2(56));
    OrCommutes(v % Pow2(56), 0);
  }

  lemma WrapLow(x: int)
    ensures Wrap(x) % 0x100_0000_0000_0000 == x % 0x100_0000_0000_0000
    ensures 0 <= x < 0x100_0000_0000_0000 ==> Wrap(x) == x
  {
    var (q, r) := (x / TWO64, x % TWO64);
    assert x == q * TWO64 + r;
    DivModUnique(x, 0x100_0000_0000_0000, q * 0x100 + r / 0x100_0000_0000_0000, r % 0x100_0000_0000_0000);
  }

  // What a rebased slot holds after the walk: in the offset format the target counts from
  // the header, in the plain format it is slid; high8 goes above the 56 bits of the sum.
  lemma RebasedSlot(ctx: Context, m: Mem, loc: int, fs: seq<Fixup>, strides: seq<nat>, limit: int, k: nat)
    requires Below(m, limit) && Holds(m, loc, fs, strides) && k < |fs| == |Places(loc, strides)| && fs[k].Rebase?
    ensures var v := Load(FixAll(ctx, m, Slots(m, loc, limit)), Places(loc, strides)[k], 8);
            var sum := if ctx.isOffset then ctx.mh + fs[k].target else fs[k].target + ctx.slide;
            && v % 0x100_0000_0000_0000 == sum % 0x100_0000_0000_0000
            && (sum < 0x100_0000_0000_0000 ==> v == sum + fs[k].high8 * 0x100_0000_0000_0000)
  {
    hide FixAll, Slots, Holds, Load, Places;
    WalkMeaning(ctx, m, loc, fs, strides, limit, k);
    var sum := if ctx.isOffset then ctx.mh + fs[k].target else fs[k].target + ctx.slide;
    WrapLow(sum);
    HighByte(Wrap(sum), fs[k].high8);
  }

  // The same list with every rebase target counted from the preferred base.
  function FromBase(fs: seq<Fixup>, base: nat): seq<Fixup> {
    seq(|fs|, i requires 0 <= i < |fs| => if fs[i].Rebase? then Rebase(base + fs[i].target, fs[i].high8) else fs[i])
  }

  lemma {:induction false} SameBytes(m: Mem, m': Mem, lo: int, hi: int, b: int)
    requires LoadRange(m, lo, hi) == LoadRange(m', lo, hi) && lo <= b < hi
    ensures Byte(m, b) == Byte(m', b)
    decreases hi - lo
  {
    var (x, y) := (LoadRange(m, lo + 1, hi), LoadRange(m', lo + 1, hi));
    DivModUnique(LoadRange(m, lo, hi), 0x100, x, Byte(m, lo));
    DivModUnique(LoadRange(m', lo, hi), 0x100, y, Byte(m', lo));
    if b > lo {
      SameBytes(m, m', lo + 1, hi, b);
    }
  }

  predicate OffPlaces(places: seq<int>, b: int) {
    forall i :: 0 <= i < |places| ==> b < places[i] || places[i] + 8 <= b
  }

  lemma SameSlot(m: Mem, p: Mem, mh: U64, slide: U64, base: nat, resolve: (nat, int, int) -> U64,
                 loc: int, fs: seq<Fixup>, strides: seq<nat>, limit: int, k: nat)
    requires Below(m, limit) && Below(p, limit) && mh == Wrap(base + slide)
    requires Holds(m, loc, fs, strides) && Holds(p, loc, FromBase(fs, base), strides)
    requires k < |fs| == |Places(loc, strides)|
    ensures var (off, plain) := (Context(true, mh, 0, resolve), Context(false, 0, slide, resolve));
            Load(FixAll(off, m, Slots(m, loc, limit)), Places(loc, strides)[k], 8)
            == Load(FixAll(plain, p, Slots(p, loc, limit)), Places(loc, strides)[k], 8)
  {
    hide FixAll, Slots, Holds, Load, Places, Below;
    var (off, plain) := (Context(true, mh, 0, resolve), Context(false, 0, slide, resolve));
    WalkMeaning(off, m, loc, fs, strides, limit, k);
    WalkMeaning(plain, p, loc, FromBase(fs, base), strides, limit, k);
    if fs[k].Rebase? {
      SumMod(fs[k].target, base + slide, TWO64);
    }
  }

  // An image preferred at base and loaded slide above it: the offset format with the
  // header where it lies and the plain format with the slide leave the same memory.
  lemma FormatsAgree(m: Mem, p: Mem, mh: U64, slide: U64, base: nat, resolve: (nat, int, int) -> U64,
                     loc: int, fs: seq<Fixup>, strides: seq<nat>, limit: int, b: int)
    requires Below(m, limit) && Below(p, limit) && mh == Wrap(base + slide)
    requires Holds(m, loc, fs, strides) && Holds(p, loc, FromBase(fs, base), strides)
    requires OffPlaces(Places(loc, strides), b) ==> Byte(m, b) == Byte(p, b)
    ensures Byte(FixAll(Context(true, mh, 0, resolve), m, Slots(m, loc, limit)), b)
         == Byte(FixAll(Context(false, 0, slide, resolve), p, Slots(p, loc, limit)), b)
  {
    HoldsPlaces(m, loc, fs, strides, limit);
    HoldsPlaces(p, loc, FromBase(fs, base), strides, limit);
    hide FixAll, Slots, Holds, Places, Below, LoadRange;
    var (off, plain, places) := (Context(true, mh, 0, resolve), Context(false, 0, slide, resolve), Places(loc, strides));
    if OffPlaces(places, b) {
      OtherByte(off, m, places, b);
      OtherByte(plain, p, places, b);
    } else {
      var k :| 0 <= k < |places| && places[k] <= b < places[k] + 8;
      SameSlot(m, p, mh, slide, base, resolve, loc, fs, strides, limit, k);
      SameBytes(FixAll(off, m, places), FixAll(plain, p, places), places[k], places[k] + 8, b);
    }
  }

  lemma Pow2Fifty()
    ensures Pow2(56) == 0x100_0000_0000_0000
  {
    Pow2Values();
    Pow2Add(32, 16);
    Pow2Add(48, 8);
  }

  lemma {:induction false} OrCommutes(x: nat, y: nat)
    ensures Bitwise(Or, x, y) == Bitwise(Or, y, x)
    decreases x + y
  {
    if x != 0 || y != 0 {
      OrCommutes(x / 2, y / 2);
    }
  }
}
