// Where an emitted .eh_frame section falls short: a mapping it outgrows, and an LSDA
// pointer that a CIE announces and an FDE does not carry.
module EhLimits {
  import opened Bits
  import opened Leb
  import opened Words
  import opened CString
  import opened Cfi
  import opened EhEmit
  import opened EhParse
  import opened EhRoundTrip
  import opened EhResults

  // --- Outgrowing the mapping ---

  // The instruction bytes of a parsed FDE.
  function Instructions(s: seq<U8>, e: Entry): seq<U8> {
    if e.cfi + e.cfiSize <= |s| then s[e.cfi..e.cfi + e.cfiSize] else []
  }

  function NativesOf(s: seq<U8>, es: seq<Entry>): seq<Native> {
    seq(|es|, i requires 0 <= i < |es| => Native(es[i].start, es[i].range, Instructions(s, es[i])))
  }

  // A native section of 188 bytes: a CIE, one FDE of 135 instruction bytes over a
  // megabyte of code, and the zero length.
  function CrowdFde(): Fde {
    Fde(0, 0x1000, 0x10_0000, 0, Nops(135))
  }

  function CrowdBytes(): seq<U8> {
    Record(0, CieBody(0)) + FdeRecord(24, CrowdFde()) + Le(0, 4)
  }

  function CrowdNative(): Native {
    Native(0x1000, 0x10_0000, Nops(135))
  }

  lemma CrowdSizes()
    ensures |Record(0, CieBody(0))| == 24 && |FdeRecord(24, CrowdFde())| == 160 && |CrowdBytes()| == 188
    ensures |CrowdFde().cfi| == 135 && |Augmentation(0)| == 1
  {
    hide Le, Nops;
    RecordAligned(0, CieBody(0));
    FdeBodySize(24, CrowdFde());
    RecordAligned(24, FdeBody(24, CrowdFde()));
    assert |CieBody(0)| == 16;
  }

  lemma CrowdParts()
    ensures At(CrowdBytes(), 0, Record(0, CieBody(0))) && At(CrowdBytes(), 24, FdeRecord(24, CrowdFde()))
    ensures At(CrowdBytes(), 184, Le(0, 4))
  {
    CrowdSizes();
    hide At, Le, Record, CieBody, FdeRecord, Nops;
    var s := CrowdBytes();
    WholeAt(s);
    AtParts(s, 0, Record(0, CieBody(0)) + FdeRecord(24, CrowdFde()), Le(0, 4));
    AtParts(s, 0, Record(0, CieBody(0)), FdeRecord(24, CrowdFde()));
  }

  lemma OneRecord(p: nat, f: Fde)
    requires f.cie <= p
    ensures CiesBelow(p, [f]) && Records(p, [f]) == FdeRecord(p, f) && EntriesOf(p, [f]) == EntryOf(p, f)
  {
    hide FdeRecord, EntryOf;
    var q := p + |FdeRecord(p, f)|;
    assert [f][1..] == [] && Records(q, []) == [] && EntriesOf(q, []) == [];
  }

  // The parser makes of these bytes the one native FDE.
  lemma CrowdParsed(env: Mapping)
    ensures |CrowdBytes()| == 188
    ensures NativesOf(CrowdBytes(), FdesFrom(env, CrowdBytes(), |CrowdBytes()|, 0)) == [CrowdNative()]
  {
    CrowdSizes();
    CrowdCie();
    hide At, Le, Record, CieBody, FdeRecord, CrowdBytes, FdesFrom, CieGood, EntryOf, EntriesOf, Nops, Records, CiesBelow;
    var (s, f) := (CrowdBytes(), CrowdFde());
    CrowdParts();
    OneRecord(24, f);
    CieParsed(env, s, 188, 0, 0);
    RecordsParsed(env, s, 188, 24, [f]);
    Terminated(env, s, 188, 184);
    var e := EntryBytes(s, 24, f);
    CrowdEntry(e);
    assert FdesFrom(env, s, 188, 0) == [e];
  }

  lemma CrowdCie()
    ensures CrowdFde().cie == 0 && CrowdFde().addr == 0x1000 && CrowdFde().size == 0x10_0000
    ensures CrowdFde().cfi == CrowdNative().cfi
  {
    hide Nops;
  }

  lemma CrowdEntry(e: Entry)
    requires EntryOf(24, CrowdFde()) == [e]
    ensures e.cfiSize == 135 && CrowdFde().cfi + Nops(e.cfiSize - |CrowdFde().cfi|) == CrowdFde().cfi
  {
    CrowdSizes();
    hide FdeRecord, Nops, Augmentation;
    NoNops();
    assert CrowdFde().cfi + [] == CrowdFde().cfi;
  }

  lemma NoNops()
    ensures Nops(0) == []
  {
  }

  // 127 functions inside it, as the collector leaves them: each up to the next, the last
  // of 256 bytes.
  function Crowd(): seq<CuEntry> {
    seq(127, i requires 0 <= i < 127 => CuEntry(0x1000 + i, if i == 126 then 256 else 1, 0x4000_0000, 1))
  }

  // Their section outgrows the mapping, which counts the bytes of the native section.
  lemma CrowdOverflows(env: Mapping)
    ensures var native := CrowdBytes();
            var natives := NativesOf(native, FdesFrom(env, native, |native|, 0));
            |Section(0, 0, natives, Crowd())| > |Crowd()| * 128 + |native| + 4096
  {
    CrowdParsed(env);
    hide Section, Nops, PlanFor, CrowdBytes, FdesFrom, NativesOf;
    var plan := PlanFor(0, 0, [CrowdNative()]);
    assert plan.text == 0 && plan.natives == [CrowdNative()] by { CrowdPlan(); }
    forall i | 0 <= i < |Crowd()|
      ensures UsesNative(plan, Crowd()[i]) && CopiedBytes(plan, Crowd()[i]) > 128
    {
      CrowdCopies(plan, i);
    }
    CopiesOverflow(0, 0, [CrowdNative()], Crowd(), 188);
  }

  lemma CrowdPlan()
    ensures PlanFor(0, 0, [CrowdNative()]).text == 0 && PlanFor(0, 0, [CrowdNative()]).natives == [CrowdNative()]
  {
    hide Record, CieBody;
  }

  lemma CrowdCopies(plan: Plan, i: nat)
    requires i < 127 && plan.text == 0 && plan.natives == [CrowdNative()]
    ensures UsesNative(plan, Crowd()[i]) && CopiedBytes(plan, Crowd()[i]) > 128
  {
    hide Nops;
    var e := Crowd()[i];
    assert e.offset == 0x1000 + i && Wrap(plan.text + e.offset) == 0x1000 + i;
    assert LsdaOf(plan, e) == 1;
    assert Covers(plan.natives[0], 0x1000 + i);
    assert FindFrom(plan.natives, 0x1000 + i, 0) == 0;
  }

  // --- LSDA pointers ---

  // The augmentation string of a CIE's data has an L: its FDEs hold an LSDA pointer.
  predicate AnnouncesLsda(d: seq<U8>) {
    |d| > 5 && 0x4c in d[5..NameEnd(d, 5)]
  }

  // The FDE at p has augmentation data for an LSDA pointer if and only if its CIE says so.
  predicate CarriesAnnounced(s: seq<U8>, p: nat) {
    p + 24 < |s| && Word(s, p + 4, 4) <= p + 4 &&
    (AnnouncesLsda(CieAt(s, p + 4 - Word(s, p + 4, 4))) <==> UlebValue(s, p + 24) == 8)
  }

  // What an entry must have for that: with a personality, an LSDA offset whenever it has
  // the LSDA bit; without one, no LSDA pointer at all, since no CIE announces any.
  predicate LsdaAgrees(text: U64, personality: U64, e: CuEntry) {
    var hasPointer := e.lsda != 0 && Wrap(text + e.lsda) != 0;
    HasLsda(e.encoding) ==> (personality != 0 <==> hasPointer)
  }

  lemma Announced(personality: U64, tail: seq<U8>)
    ensures AnnouncesLsda(CieBody(personality) + tail) <==> personality != 0
  {
    hide Le;
    var d := CieBody(personality) + tail;
    if personality == 0 {
      assert d[..8] == [0, 0, 0, 0, 1, 0x7a, 0x52, 0];
      assert d[5] == d[..8][5] && d[6] == d[..8][6] && d[7] == d[..8][7];
      NameFound(d, 5, 7);
      assert d[5..7] == [0x7a, 0x52];
    } else {
      assert d[..10] == [0, 0, 0, 0, 1, 0x7a, 0x50, 0x4c, 0x52, 0];
      assert d[5] == d[..10][5] && d[6] == d[..10][6] && d[7] == d[..10][7] && d[8] == d[..10][8] && d[9] == d[..10][9];
      NameFound(d, 5, 9);
      assert d[5..9][2] == 0x4c;
    }
  }

  lemma CieAnnounces(s: seq<U8>, p: nat, personality: U64)
    requires At(s, p, Record(p, CieBody(personality))) && p + |Record(p, CieBody(personality))| < LIMIT
    ensures p <= |s| && (AnnouncesLsda(CieAt(s, p)) <==> personality != 0)
  {
    hide At, CieBody, Record, CieAt, AnnouncesLsda, Nops, Pad;
    CieBytesAt(s, p, CieBody(personality));
    Announced(personality, Nops(Pad(p + 4 + |CieBody(personality)|)));
  }

  lemma AugLengthIs(s: seq<U8>, p: nat, lsda: U64)
    requires At(s, p, Augmentation(lsda))
    ensures p < |s| && UlebValue(s, p) == if lsda == 0 then 0 else 8
  {
    hide Le;
    if lsda == 0 {
      AtByte(s, p, 0);
    } else {
      AtParts(s, p, [8], Le(lsda, 8));
      AtByte(s, p, 8);
    }
  }

  // Which CIE an entry's FDE refers to, and its LSDA pointer.
  lemma FdeLsda(plan: Plan, e: CuEntry)
    requires FdeOf(plan, e).Some?
    ensures var f := FdeOf(plan, e).value;
            && f.cie == (if HasLsda(e.encoding) then plan.withCie else plan.plainCie)
            && f.lsda == (if HasLsda(e.encoding) && e.lsda != 0 then Wrap(plan.text + e.lsda) else 0)
  {
    hide CfiFor, FindFrom;
  }

  lemma PlacedCarries(s: seq<U8>, p: nat, f: Fde, announced: bool)
    requires f.cie <= p && At(s, p, FdeRecord(p, f)) && p + |FdeRecord(p, f)| < LIMIT
    requires f.cie <= |s| && (AnnouncesLsda(CieAt(s, f.cie)) <==> announced)
    ensures CarriesAnnounced(s, p) <==> (announced <==> f.lsda != 0)
  {
    hide At, Record, FdeBody, Augmentation, Nops, Pad, Word, CieAt, AnnouncesLsda, UlebValue;
    FdeBodySize(p, f);
    RecordAligned(p, FdeBody(p, f));
    RecordAt(s, p, FdeBody(p, f));
    FdeHeadAt(s, p, f);
    AugLengthIs(s, p + 24, f.lsda);
  }

  lemma {:induction false} HeaderListed(p: nat, fs: seq<Fde>, i: nat)
    requires CiesBelow(p, fs) && i < |fs| == |Positions(p, fs)|
    ensures |HeadersOf(p, fs)| == |fs| && HeadersOf(p, fs)[i] == Header(fs[i].addr, fs[i].size, Positions(p, fs)[i])
    decreases |fs|
  {
    hide FdeRecord;
    var q := p + |FdeRecord(p, fs[0])|;
    if |fs| > 1 {
      HeaderListed(q, fs[1..], if i > 0 then i - 1 else 0);
    } else {
      assert fs[1..] == [] && HeadersOf(q, []) == [];
    }
  }

  lemma CiesAnnounce(text: U64, personality: U64, natives: seq<Native>, es: seq<CuEntry>, e: CuEntry)
    requires |Section(text, personality, natives, es)| < LIMIT && FdeOf(PlanFor(text, personality, natives), e).Some?
    ensures var (s, f) := (Section(text, personality, natives, es), FdeOf(PlanFor(text, personality, natives), e).value);
            && f.cie <= |s| && (AnnouncesLsda(CieAt(s, f.cie)) <==> personality != 0 && HasLsda(e.encoding))
  {
    var plan := PlanFor(text, personality, natives);
    FdeLsda(plan, e);
    hide Record, CieBody, FdeOf, FdesOf, Records, At, Section, Cies, CiesBelow, Le, AnnouncesLsda, CieAt;
    var s := Section(text, personality, natives, es);
    SectionParts(text, personality, natives, es);
    CieAnnounces(s, 0, personality);
    CieAnnounces(s, plan.plainCie, 0);
  }

  // Every FDE of every section carries the LSDA pointer its CIE announces, and no other,
  // if and only if its entry agrees with the personality.
  lemma CarriedExactly(text: U64, personality: U64, natives: seq<Native>, es: seq<CuEntry>, k: nat) returns (h: Header)
    requires |Section(text, personality, natives, es)| < LIMIT
    requires k < |es| && FdeOf(PlanFor(text, personality, natives), es[k]).Some?
    ensures var (s, f) := (Section(text, personality, natives, es), FdeOf(PlanFor(text, personality, natives), es[k]).value);
            && h in HeadersFrom(s, 0) && h.start == f.addr && h.range == f.size
            && (CarriesAnnounced(s, h.fde) <==> LsdaAgrees(text, personality, es[k]))
  {
    hide *;
    var plan := PlanFor(text, personality, natives);
    var (s, n, fs) := (Section(text, personality, natives, es), |Cies(personality)|, FdesOf(plan, es));
    var f := FdeOf(plan, es[k]).value;
    var i := FdeListed(plan, es, k);
    SectionHeaders(text, personality, natives, es);
    SectionAligned(text, personality, natives, es);
    SectionParts(text, personality, natives, es);
    FdePlaced(s, n, fs, i);
    HeaderListed(n, fs, i);
    h := HeadersOf(n, fs)[i];
    PlacedInside(s, h.fde, f);
    CiesAnnounce(text, personality, natives, es, es[k]);
    LsdaMeans(text, personality, natives, es[k]);
    PlacedCarries(s, h.fde, f, personality != 0 && HasLsda(es[k].encoding));
  }

  lemma LsdaMeans(text: U64, personality: U64, natives: seq<Native>, e: CuEntry)
    requires FdeOf(PlanFor(text, personality, natives), e).Some?
    ensures var f := FdeOf(PlanFor(text, personality, natives), e).value;
            LsdaAgrees(text, personality, e) <==> (personality != 0 && HasLsda(e.encoding) <==> f.lsda != 0)
  {
    hide Record, CieBody, FdeOf;
    FdeLsda(PlanFor(text, personality, natives), e);
  }

  // For every personality a FRAME function with the LSDA bit: without an LSDA offset when
  // there is a personality, and with one when there is none.
  function Stray(personality: U64): CuEntry {
    CuEntry(0x1000, 256, 0x4400_0000, if personality != 0 then 0 else 1)
  }

  lemma StrayLsda(personality: U64) returns (h: Header)
    ensures var s := Section(0, personality, [], [Stray(personality)]);
            h in HeadersFrom(s, 0) && h.start == 0x1000 && !CarriesAnnounced(s, h.fde)
  {
    hide Section, HeadersFrom, CarriesAnnounced, PlanFor;
    var plan := PlanFor(0, personality, []);
    StrayFde(personality);
    SectionFits(0, personality, [], [Stray(personality)]);
    h := CarriedExactly(0, personality, [], [Stray(personality)], 0);
  }

  lemma StrayFde(personality: U64)
    ensures var plan := PlanFor(0, personality, []);
            && FdeOf(plan, Stray(personality)).Some? && FdeOf(plan, Stray(personality)).value.addr == 0x1000
            && Copied(plan, [Stray(personality)]) == 0
    ensures !LsdaAgrees(0, personality, Stray(personality))
  {
    hide Record, CieBody, CfiFor;
    var plan := PlanFor(0, personality, []);
    var e := Stray(personality);
    assert !UsesNative(plan, e);
    assert [e][1..] == [] && Copied(plan, []) == 0;
  }
}
