// What holds of every emitted .eh_frame section: size, alignment, the synthetic index
// and the meaning of the instructions found by the parser.
module EhResults {
  import opened Bits
  import opened Options
  import opened Leb
  import opened Words
  import opened Cfi
  import opened EhEmit
  import opened EhParse
  import opened EhRoundTrip
  import opened CString

  // --- Alignment ---

  // Positions of the records of a list.
  function Positions(p: nat, fs: seq<Fde>): seq<nat>
    requires CiesBelow(p, fs)
    decreases |fs|
  {
    if fs == [] then [] else [p] + Positions(p + |FdeRecord(p, fs[0])|, fs[1..])
  }

  lemma {:induction false} PositionsAligned(p: nat, fs: seq<Fde>)
    requires CiesBelow(p, fs) && p % 8 == 0
    ensures |Positions(p, fs)| == |fs|
    ensures forall i :: 0 <= i < |fs| ==> Positions(p, fs)[i] % 8 == 0
    ensures (p + |Records(p, fs)|) % 8 == 0
    decreases |fs|
  {
    if fs != [] {
      RecordAligned(p, FdeBody(p, fs[0]));
      hide Record, FdeBody;
      PositionsAligned(p + |FdeRecord(p, fs[0])|, fs[1..]);
    }
  }

  // Every FDE of a section starts at a multiple of 8, and so does what follows it.
  lemma SectionAligned(text: U64, personality: U64, natives: seq<Native>, es: seq<CuEntry>)
    ensures var (fs, n) := (FdesOf(PlanFor(text, personality, natives), es), |Cies(personality)|);
            && CiesBelow(n, fs) && |Positions(n, fs)| == |fs|
            && (forall i :: 0 <= i < |fs| ==> Positions(n, fs)[i] % 8 == 0)
            && (|Section(text, personality, natives, es)| - 4) % 8 == 0
  {
    hide Cies, FdesOf, PlanFor, Records, Positions, CiesBelow, Le;
    CiesFit(text, personality, natives, es);
    CiesSize(personality);
    var n := |Cies(personality)|;
    PositionsAligned(n, FdesOf(PlanFor(text, personality, natives), es));
  }

  // --- Size ---

  lemma {:induction false} SaveAllSize(regs: seq<nat>, slot: nat)
    requires Registers(regs) && slot + |regs| < 128
    ensures |SaveAll(regs, slot)| <= 3 * |regs|
    decreases |regs|
  {
    if regs != [] {
      SmallUleb(slot);
      SmallUleb(regs[0]);
      hide Uleb;
      SaveAllSize(regs[1..], slot + 1);
    }
  }

  lemma CfiSize(encoding: U32)
    ensures |CfiFor(encoding)| <= 66
  {
    SavedRegisters(encoding);
    SaveAllSize(Saved(encoding), 3);
    SaveAllSize(Saved(encoding), 1);
    SmallUleb(FP);
    SmallUleb(SP);
    SmallUleb(16);
    SmallUleb(1);
    SmallUleb(2);
    Pow2Values();
    Pow2Add(7, 14);
    assert StackSize(encoding) < Pow2(7 * 3) by {
      Pow2Add(7, 7);
    }
    UlebLength(StackSize(encoding), 3);
    hide Uleb, SaveAll, Saved, StackSize, Pow2;
  }

  // The bytes an entry takes: its FDE rounded up to a multiple of 8.
  function SizeOf(plan: Plan, e: CuEntry): nat {
    match FdeOf(plan, e)
    case None => 0
    case Some(f) =>
      var n := 24 + |Augmentation(f.lsda)| + |f.cfi|;
      n + Pad(n)
  }

  function SizeSum(plan: Plan, es: seq<CuEntry>): nat {
    if es == [] then 0 else SizeOf(plan, es[0]) + SizeSum(plan, es[1..])
  }

  lemma PadShift(p: nat, n: nat)
    requires p % 8 == 0
    ensures Pad(p + n) == Pad(n)
  {
    assert (p + n) % 8 == n % 8;
  }

  lemma RecordExact(plan: Plan, e: CuEntry, p: nat)
    requires FdeOf(plan, e).Some? && FdeOf(plan, e).value.cie <= p && p % 8 == 0
    ensures |FdeRecord(p, FdeOf(plan, e).value)| == SizeOf(plan, e)
    ensures (p + SizeOf(plan, e)) % 8 == 0
  {
    hide FdeOf, Augmentation, FdeBody, Pad;
    var f := FdeOf(plan, e).value;
    FdeBodySize(p, f);
    RecordAligned(p, FdeBody(p, f));
    PadShift(p, 24 + |Augmentation(f.lsda)| + |f.cfi|);
  }

  lemma {:induction false} RecordsExact(plan: Plan, es: seq<CuEntry>, p: nat)
    requires plan.withCie <= p && plan.plainCie <= p && p % 8 == 0
    ensures CiesBelow(p, FdesOf(plan, es)) && |Records(p, FdesOf(plan, es))| == SizeSum(plan, es)
    decreases |es|
  {
    hide FdeOf, FdeRecord, CiesBelow, SizeOf;
    PlanBelow(plan, p, es);
    if es != [] {
      var f := FdeOf(plan, es[0]);
      if f.None? {
        NoSize(plan, es[0]);
        RecordsExact(plan, es[1..], p);
      } else {
        FirstBelow(plan, es, p);
        RecordExact(plan, es[0], p);
        assert FdesOf(plan, es)[1..] == FdesOf(plan, es[1..]);
        RecordsExact(plan, es[1..], p + |FdeRecord(p, f.value)|);
      }
    }
  }

  lemma NoSize(plan: Plan, e: CuEntry)
    requires FdeOf(plan, e).None?
    ensures SizeOf(plan, e) == 0
  {
  }

  lemma FirstBelow(plan: Plan, es: seq<CuEntry>, p: nat)
    requires es != [] && FdeOf(plan, es[0]).Some? && CiesBelow(p, FdesOf(plan, es))
    ensures FdeOf(plan, es[0]).value.cie <= p
  {
    assert FdesOf(plan, es)[0] == FdeOf(plan, es[0]).value;
  }

  lemma CiesSize(personality: U64)
    ensures |Cies(personality)| == if personality != 0 then 56 else 48
  {
    hide Le, Nops;
    RecordAligned(0, CieBody(personality));
    RecordAligned(|Record(0, CieBody(personality))|, CieBody(0));
    assert |CieBody(0)| == 16 && |CieBody(personality)| == if personality != 0 then 28 else 16;
  }

  // The size of the section from the entries alone: it fits a mapping if and only if
  // this is no more than its size.
  lemma SectionSize(text: U64, personality: U64, natives: seq<Native>, es: seq<CuEntry>)
    ensures |Section(text, personality, natives, es)|
            == (if personality != 0 then 60 else 52) + SizeSum(PlanFor(text, personality, natives), es)
  {
    var plan := PlanFor(text, personality, natives);
    CiesSize(personality);
    assert plan.plainCie <= |Cies(personality)| by { hide Record, CieBody; }
    hide Cies, FdesOf, PlanFor, Records, CiesBelow, Le, SizeSum;
    CiesFit(text, personality, natives, es);
    RecordsExact(plan, es, |Cies(personality)|);
  }

  // The instruction bytes an entry copies from the native FDE it matches.
  function CopiedBytes(plan: Plan, e: CuEntry): nat {
    if UsesNative(plan, e) then |plan.natives[FindFrom(plan.natives, Wrap(plan.text + e.offset), 0)].cfi| else 0
  }

  function Copied(plan: Plan, es: seq<CuEntry>): nat {
    if es == [] then 0 else CopiedBytes(plan, es[0]) + Copied(plan, es[1..])
  }

  // An entry takes at most 128 bytes and what it copies; one that copies, at least 33 more.
  lemma EntrySize(plan: Plan, e: CuEntry)
    ensures SizeOf(plan, e) <= 128 + CopiedBytes(plan, e)
    ensures UsesNative(plan, e) ==> SizeOf(plan, e) >= 33 + CopiedBytes(plan, e)
  {
    CfiSize(e.encoding);
    hide CfiFor, Pad, FindFrom, Wrap;
  }

  lemma {:induction false} SumAtMost(plan: Plan, es: seq<CuEntry>)
    ensures SizeSum(plan, es) <= |es| * 128 + Copied(plan, es)
    decreases |es|
  {
    hide SizeOf, CopiedBytes;
    if es != [] {
      EntrySize(plan, es[0]);
      SumAtMost(plan, es[1..]);
    }
  }

  // The buffer holds count * 128 + 4096 bytes and as many as the native section has: it
  // is large enough whenever the copied instructions together are no longer than that
  // section, in particular when nothing is copied.
  lemma SectionFits(text: U64, personality: U64, natives: seq<Native>, es: seq<CuEntry>)
    ensures |Section(text, personality, natives, es)|
            <= |es| * 128 + Copied(PlanFor(text, personality, natives), es) + 4096
  {
    hide *;
    SectionSize(text, personality, natives, es);
    SumAtMost(PlanFor(text, personality, natives), es);
  }

  // Every entry copies the instructions of a native FDE longer than 128 bytes.
  ghost predicate AllCopy(plan: Plan, es: seq<CuEntry>) {
    forall i :: 0 <= i < |es| ==> UsesNative(plan, es[i]) && CopiedBytes(plan, es[i]) > 128
  }

  lemma {:induction false} SumAtLeast(plan: Plan, es: seq<CuEntry>)
    requires AllCopy(plan, es)
    ensures SizeSum(plan, es) >= |es| * 162
    decreases |es|
  {
    hide SizeOf, CopiedBytes, UsesNative;
    if es != [] {
      EntrySize(plan, es[0]);
      SumAtLeast(plan, es[1..]);
    }
  }

  // But one native FDE may be copied by many entries: with enough of them no native size
  // makes the buffer large enough.
  lemma CopiesOverflow(text: U64, personality: U64, natives: seq<Native>, es: seq<CuEntry>, nativeSize: nat)
    requires AllCopy(PlanFor(text, personality, natives), es) && 34 * |es| >= nativeSize + 4096
    ensures |Section(text, personality, natives, es)| > |es| * 128 + nativeSize + 4096
  {
    hide *;
    SectionSize(text, personality, natives, es);
    SumAtLeast(PlanFor(text, personality, natives), es);
  }

  // --- The synthetic index ---

  function HeadersOf(p: nat, fs: seq<Fde>): seq<Header>
    requires CiesBelow(p, fs)
    decreases |fs|
  {
    if fs == [] then []
    else [Header(fs[0].addr, fs[0].size, p)] + HeadersOf(p + |FdeRecord(p, fs[0])|, fs[1..])
  }

  lemma HeaderUnfolded(s: seq<U8>, p: nat, n: nat)
    requires p + 4 + n < |s| && n > 0 && Word(s, p, 4) == n
    ensures HeadersFrom(s, p) == (if Word(s, p + 4, 4) == 0 then []
            else [Header(Wrap(Word(s, p + 8, 8)), Wrap(Word(s, p + 16, 8)), p)]) + HeadersFrom(s, p + 4 + n)
  {
    hide Word, Wrap;
  }

  lemma HeaderParsed(s: seq<U8>, p: nat, f: Fde)
    requires f.cie <= p && At(s, p, FdeRecord(p, f)) && |s| < LIMIT && p + |FdeRecord(p, f)| < |s|
    ensures HeadersFrom(s, p) == [Header(f.addr, f.size, p)] + HeadersFrom(s, p + |FdeRecord(p, f)|)
  {
    hide At, Word, Record, FdeBody, HeadersFrom, Augmentation, Nops, Pad;
    FdeBodySize(p, f);
    RecordAligned(p, FdeBody(p, f));
    RecordAt(s, p, FdeBody(p, f));
    FdeHeadAt(s, p, f);
    HeaderUnfolded(s, p, |FdeRecord(p, f)| - 4);
  }

  lemma {:induction false} HeadersParsed(s: seq<U8>, p: nat, fs: seq<Fde>)
    requires CiesBelow(p, fs) && At(s, p, Records(p, fs)) && |s| < LIMIT && p + |Records(p, fs)| < |s|
    ensures HeadersFrom(s, p) == HeadersOf(p, fs) + HeadersFrom(s, p + |Records(p, fs)|)
    decreases |fs|
  {
    hide At, HeadersFrom, FdeRecord;
    if fs != [] {
      var (f, r) := (fs[0], FdeRecord(p, fs[0]));
      AtParts(s, p, r, Records(p + |r|, fs[1..]));
      HeaderParsed(s, p, f);
      HeadersParsed(s, p + |r|, fs[1..]);
      Joined([Header(f.addr, f.size, p)], HeadersOf(p + |r|, fs[1..]), HeadersFrom(s, p + |Records(p, fs)|));
    }
  }

  lemma CieHeader(s: seq<U8>, p: nat, personality: U64)
    requires At(s, p, Record(p, CieBody(personality))) && |s| < LIMIT && p + |Record(p, CieBody(personality))| < |s|
    ensures HeadersFrom(s, p) == HeadersFrom(s, p + |Record(p, CieBody(personality))|)
  {
    hide At, CieBody, Record, Nops, Pad, Word, HeadersFrom;
    var body := CieBody(personality);
    CieStart(personality);
    RecordAt(s, p, body);
    IdZero(s, p + 4, body);
    HeaderUnfolded(s, p, |Record(p, body)| - 4);
  }

  lemma HeadersEnd(s: seq<U8>, p: nat)
    requires p + 4 == |s|
    ensures HeadersFrom(s, p) == []
  {
  }

  // The collector finds every emitted FDE, in order, with its address and position.
  lemma SectionHeaders(text: U64, personality: U64, natives: seq<Native>, es: seq<CuEntry>)
    requires |Section(text, personality, natives, es)| < LIMIT
    ensures var fs := FdesOf(PlanFor(text, personality, natives), es);
            && CiesBelow(|Cies(personality)|, fs)
            && HeadersFrom(Section(text, personality, natives, es), 0) == HeadersOf(|Cies(personality)|, fs)
  {
    var plan := PlanFor(text, personality, natives);
    var fs := FdesOf(plan, es);
    hide Record, CieBody, FdesOf, Records, HeadersFrom, HeadersOf, Le, At, Section, Cies, CiesBelow;
    var (s, cies) := (Section(text, personality, natives, es), Cies(personality));
    SectionParts(text, personality, natives, es);
    CieHeader(s, 0, personality);
    CieHeader(s, plan.plainCie, 0);
    HeadersParsed(s, |cies|, fs);
    HeadersEnd(s, |cies| + |Records(|cies|, fs)|);
    assert HeadersOf(|cies|, fs) + [] == HeadersOf(|cies|, fs);
  }

  // --- The instructions an entry points at ---

  lemma AtBoth(s: seq<U8>, p: nat, a: seq<U8>, b: seq<U8>)
    requires At(s, p, a) && At(s, p + |a|, b)
    ensures s[p..p + |a| + |b|] == a + b
  {
    var (q, r) := (p + |a|, p + |a| + |b|);
    assert s[p..r] == s[p..q] + s[q..r];
  }

  lemma CfiBytes(s: seq<U8>, p: nat, f: Fde)
    requires f.cie <= p && At(s, p, FdeRecord(p, f)) && p + |FdeRecord(p, f)| < LIMIT
    ensures var (cfi, end) := (p + 24 + |Augmentation(f.lsda)|, p + |FdeRecord(p, f)|);
            && cfi <= end <= |s|
            && s[cfi..end] == f.cfi + Nops(end - cfi - |f.cfi|)
  {
    hide At, Record, FdeBody, Augmentation, Nops, Pad, Word;
    FdeBodySize(p, f);
    RecordAligned(p, FdeBody(p, f));
    RecordAt(s, p, FdeBody(p, f));
    FdeHeadAt(s, p, f);
    var (cfi, end) := (p + 24 + |Augmentation(f.lsda)|, p + |FdeRecord(p, f)|);
    AtBoth(s, cfi, f.cfi, Nops(end - cfi - |f.cfi|));
  }

  // The rows an FDE's instructions should mean.
  function RowsFor(encoding: U32): seq<Row> {
    if Mode(encoding) == 4 then [ENTRY, FrameRow(encoding)]
    else if Mode(encoding) == 2 && StackSize(encoding) != 0 then [ENTRY, FramelessRow(encoding)]
    else [ENTRY]
  }

  lemma CfiMeaning(encoding: U32, pad: nat)
    ensures Rows(CfiFor(encoding) + Nops(pad), ENTRY) == Some(RowsFor(encoding))
  {
    hide Rows, FrameCfi, FramelessCfi, FrameRow, FramelessRow;
    FrameMeaning(encoding, pad);
    FramelessMeaning(encoding, pad);
    RowsNops(pad, ENTRY);
    assert [] + Nops(pad) == Nops(pad);
  }

  lemma {:induction false} FdePlaced(s: seq<U8>, p: nat, fs: seq<Fde>, i: nat)
    requires CiesBelow(p, fs) && At(s, p, Records(p, fs)) && i < |fs| == |Positions(p, fs)|
    ensures var q := Positions(p, fs)[i]; fs[i].cie <= q && At(s, q, FdeRecord(q, fs[i]))
    ensures EntryOf(Positions(p, fs)[i], fs[i]) != [] ==>
              EntryOf(Positions(p, fs)[i], fs[i])[0] in EntriesOf(p, fs)
    decreases i
  {
    hide At, FdeRecord, EntryOf;
    var r := FdeRecord(p, fs[0]);
    AtParts(s, p, r, Records(p + |r|, fs[1..]));
    if i > 0 {
      FdePlaced(s, p + |r|, fs[1..], i - 1);
    }
  }

  // The FDE of an entry is one of the section's.
  lemma {:induction false} FdeListed(plan: Plan, es: seq<CuEntry>, k: nat) returns (i: nat)
    requires k < |es| && FdeOf(plan, es[k]).Some?
    ensures i < |FdesOf(plan, es)| && FdesOf(plan, es)[i] == FdeOf(plan, es[k]).value
    decreases k
  {
    hide FdeOf;
    if k == 0 {
      i := 0;
    } else {
      i := FdeListed(plan, es[1..], k - 1);
      if FdeOf(plan, es[0]).Some? {
        i := i + 1;
      }
    }
  }

  // An entry with an FDE of its own: not matched by a native one, not in DWARF mode, not a
  // continuation, at a non-zero address.
  predicate Own(plan: Plan, e: CuEntry) {
    && !UsesNative(plan, e) && Mode(e.encoding) != 3 && !NotFunctionStart(e.encoding)
    && Wrap(plan.text + e.offset) != 0
  }

  lemma OwnFde(text: U64, personality: U64, natives: seq<Native>, e: CuEntry)
    requires Own(PlanFor(text, personality, natives), e)
    ensures var f := FdeOf(PlanFor(text, personality, natives), e);
            && f.Some? && f.value.addr == Wrap(text + e.offset) != 0 && f.value.size == e.size
            && f.value.cfi == CfiFor(e.encoding)
  {
    hide Record, CieBody, UsesNative, CfiFor, Wrap;
  }

  lemma EntryBytes(s: seq<U8>, p: nat, f: Fde) returns (e: Entry)
    requires f.cie <= p && At(s, p, FdeRecord(p, f)) && p + |FdeRecord(p, f)| < LIMIT && f.addr != 0
    ensures EntryOf(p, f) == [e] && e.start == f.addr && e.range == f.size && e.cfi + e.cfiSize <= |s|
    ensures |f.cfi| <= e.cfiSize && s[e.cfi..e.cfi + e.cfiSize] == f.cfi + Nops(e.cfiSize - |f.cfi|)
  {
    hide FdeRecord, Augmentation, Nops, At, Wrap;
    CfiBytes(s, p, f);
    e := EntryOf(p, f)[0];
    WrapSize(p + |FdeRecord(p, f)| - e.cfi);
  }

  lemma PlacedInside(s: seq<U8>, p: nat, f: Fde)
    requires f.cie <= p && At(s, p, FdeRecord(p, f))
    ensures p + |FdeRecord(p, f)| <= |s|
  {
  }

  // Every compact unwind entry that gets an FDE, its own or a copy of a native one, is
  // found again by the parser: its address, its size and its instructions, padded.
  lemma EntryFound(env: Mapping, text: U64, personality: U64, natives: seq<Native>, es: seq<CuEntry>, after: seq<U8>,
                   k: nat) returns (e: Entry)
    requires |Section(text, personality, natives, es)| < LIMIT && k < |es|
    requires var f := FdeOf(PlanFor(text, personality, natives), es[k]); f.Some? && f.value.addr != 0
    ensures var s := Section(text, personality, natives, es);
            var f := FdeOf(PlanFor(text, personality, natives), es[k]).value;
            && e in FdesFrom(env, s + after, |s|, 0)
            && e.start == f.addr && e.range == f.size
            && e.cfi + e.cfiSize <= |s| && |f.cfi| <= e.cfiSize
            && s[e.cfi..e.cfi + e.cfiSize] == f.cfi + Nops(e.cfiSize - |f.cfi|)
  {
    hide *;
    var plan := PlanFor(text, personality, natives);
    var (s, n, fs) := (Section(text, personality, natives, es), |Cies(personality)|, FdesOf(plan, es));
    var i := FdeListed(plan, es, k);
    SectionParsed(env, text, personality, natives, es, after);
    SectionAligned(text, personality, natives, es);
    SectionParts(text, personality, natives, es);
    FdePlaced(s, n, fs, i);
    PlacedInside(s, Positions(n, fs)[i], FdeOf(plan, es[k]).value);
    e := EntryBytes(s, Positions(n, fs)[i], FdeOf(plan, es[k]).value);
  }

  // Unwinding by the section, end to end: for every entry with an FDE of its own the parser
  // hands out an FDE of its address and size whose instructions, padding included, mean the
  // frame layout of its encoding.
  lemma EntryUnwinds(env: Mapping, text: U64, personality: U64, natives: seq<Native>, es: seq<CuEntry>, after: seq<U8>,
                     k: nat) returns (e: Entry)
    requires |Section(text, personality, natives, es)| < LIMIT
    requires k < |es| && Own(PlanFor(text, personality, natives), es[k])
    ensures var s := Section(text, personality, natives, es);
            && e in FdesFrom(env, s + after, |s|, 0)
            && e.start == Wrap(text + es[k].offset) && e.range == es[k].size
            && e.cfi + e.cfiSize <= |s|
            && Rows(s[e.cfi..e.cfi + e.cfiSize], ENTRY) == Some(RowsFor(es[k].encoding))
  {
    hide *;
    OwnFde(text, personality, natives, es[k]);
    e := EntryFound(env, text, personality, natives, es, after, k);
    CfiMeaning(es[k].encoding, e.cfiSize - |CfiFor(es[k].encoding)|);
  }

  lemma WrapSize(n: int)
    requires 0 <= n < LIMIT
    ensures Wrap(n) == n
  {
  }

  // The initial instructions of both CIEs, where the parser finds them, give the row every
  // function starts with.
  lemma CieUnwinds(s: seq<U8>, p: nat, personality: U64)
    requires At(s, p, Record(p, CieBody(personality))) && p + |Record(p, CieBody(personality))| < LIMIT
    ensures p <= |s|
    ensures var d := CieAt(s, p);
            && |d| > 4 && NameEnd(d, 5) < |d| && AugEnd(d) <= |d|
            && Rows(d[AugEnd(d)..], Row(0, 0, 0, map[])) == Some([ENTRY])
  {
    hide CieBody, Record, CieAt, AugEnd, Nops, Pad, Rows, CieEncoding, NameEnd, At, HasZ;
    var body := CieBody(personality);
    var pad := Pad(p + 4 + |body|);
    CieBytesAt(s, p, body);
    CieEncodingOf(personality, Nops(pad));
    CieEnds(personality);
    TailOf(body, [12, 31, 0], Nops(pad));
    EntryMeaning(pad);
  }

  lemma TailOf(body: seq<U8>, end: seq<U8>, more: seq<U8>)
    requires |end| <= |body| && body[|body| - |end|..] == end
    ensures (body + more)[|body| - |end|..] == end + more
  {
  }

  lemma CieEnds(personality: U64)
    ensures |CieBody(personality)| >= 16 && CieBody(personality)[|CieBody(personality)| - 3..] == [12, 31, 0]
  {
    hide Le;
  }

  lemma EntryMeaning(pad: nat)
    ensures Rows([12, 31, 0] + Nops(pad), Row(0, 0, 0, map[])) == Some([ENTRY])
  {
    SmallUleb(31);
    SmallUleb(0);
    assert [12, 31, 0] + Nops(pad) == [0x0c] + Uleb(31) + Uleb(0) + Nops(pad);
    RowsDefine(31, 0, Nops(pad), Row(0, 0, 0, map[]));
    hide Rows;
    RowsNops(pad, ENTRY);
  }
}
