// Parsing an emitted .eh_frame section returns exactly the FDEs that were emitted.
module EhRoundTrip {
  import opened Bits
  import opened Leb
  import opened Words
  import opened CString
  import opened Cfi
  import opened EhEmit
  import opened EhParse

  // --- One record ---

  // The section is small enough for 32-bit lengths and distances.
  const LIMIT: nat := 0xffff_ffff

  lemma RecordParts(s: seq<U8>, p: nat, body: seq<U8>)
    requires At(s, p, Record(p, body))
    ensures var pad := Pad(p + 4 + |body|);
            && At(s, p, Le(|body| + pad, 4)) && At(s, p + 4, body) && At(s, p + 4 + |body|, Nops(pad))
            && |Record(p, body)| == 4 + (|body| + pad)
  {
    hide Le, Nops, Pad, At;
    var pad := Pad(p + 4 + |body|);
    AtParts(s, p, Le(|body| + pad, 4) + body, Nops(pad));
    AtParts(s, p, Le(|body| + pad, 4), body);
  }

  lemma RecordAt(s: seq<U8>, p: nat, body: seq<U8>)
    requires At(s, p, Record(p, body)) && p + |Record(p, body)| < LIMIT
    ensures var pad := Pad(p + 4 + |body|);
            && Word(s, p, 4) == |body| + pad && At(s, p + 4, body)
            && At(s, p + 4 + |body|, Nops(pad))
            && p + |Record(p, body)| == p + 4 + (|body| + pad) <= |s|
  {
    hide Le, Nops, Pad, Word, At, Pow2, Record;
    RecordParts(s, p, body);
    AtBound(s, p, Record(p, body));
    Pow2Values();
    AtWord(s, p, |body| + Pad(p + 4 + |body|), 4);
  }

  lemma FdeHeadAt(s: seq<U8>, p: nat, f: Fde)
    requires f.cie <= p && At(s, p + 4, FdeBody(p, f)) && p + 4 < LIMIT
    ensures Word(s, p + 4, 4) == p + 4 - f.cie
    ensures Word(s, p + 8, 8) == f.addr && Word(s, p + 16, 8) == f.size
    ensures At(s, p + 24, Augmentation(f.lsda))
    ensures At(s, p + 24 + |Augmentation(f.lsda)|, f.cfi)
  {
    hide Le, Augmentation, Word, At, Pow2;
    var (a, b, c, d) := (Le(p + 4 - f.cie, 4), Le(f.addr, 8), Le(f.size, 8), Augmentation(f.lsda));
    AtParts(s, p + 4, a + b + c + d, f.cfi);
    AtParts(s, p + 4, a + b + c, d);
    AtParts(s, p + 4, a + b, c);
    AtParts(s, p + 4, a, b);
    Pow2Values();
    AtWord(s, p + 4, p + 4 - f.cie, 4);
    AtWord(s, p + 8, f.addr, 8);
    AtWord(s, p + 16, f.size, 8);
  }

  // Skipping the augmentation data leads to the instructions.
  lemma AugAt(s: seq<U8>, p: nat, end: nat, lsda: U64)
    requires At(s, p, Augmentation(lsda)) && p + |Augmentation(lsda)| <= end <= |s|
    ensures |Augmentation(lsda)| > 0 && SkipAug(s[..end], p) == p + |Augmentation(lsda)|
  {
    hide Le;
    var t := s[..end];
    if lsda == 0 {
      AtByte(s, p, 0);
    } else {
      AtParts(s, p, [8], Le(lsda, 8));
      AtByte(s, p, 8);
    }
    assert t[p] == s[p] < 128;
    assert LebEnd(t, p) == p + 1 && UlebValue(t, p) == s[p];
  }

  // Both kinds of emitted CIE announce augmentation data and absolute pointers.
  ghost predicate CieGood(s: seq<U8>, c: nat) {
    c <= |s| && HasZ(CieAt(s, c)) && CieEncoding(CieAt(s, c)) == 0
  }

  // An absolute 8-byte pointer.
  lemma AbsolutePointer(env: Mapping, s: seq<U8>, p: nat, end: nat)
    requires p + 8 <= end
    ensures ReadPtr(env, s, p, end, 0) == Reading(Wrap(Word(s, p, 8)), p + 8)
    ensures ReadValue(s, p, end, 0) == Reading(Wrap(Word(s, p, 8)), p + 8)
  {
    hide Word;
    assert Size(0) == 8;
  }

  // A number in the range of its encoding, signed or not, is read back from its bytes.
  lemma OperandRead(s: seq<U8>, p: nat, encoding: U8, v: int)
    requires Size(encoding) > 0 && InEncoding(encoding, v)
    requires At(s, p, Le(v % Pow2(8 * Size(encoding)), Size(encoding)))
    ensures Operand(s, p, encoding) == Wrap(v)
  {
    hide At, Le, Word;
    var (n, w) := (Size(encoding), Pow2(8 * Size(encoding)));
    AtWord(s, p, v % w, n);
    Pow2Half(8 * n - 1);
    hide Pow2;
    if v < 0 {
      DivModUnique(v, w, -1, v + w);
    } else {
      DivModUnique(v, w, 0, v);
    }
    Pow2Values();
  }

  // The sizes of DW_EH_PE_absptr, udata2, udata4, udata8, sdata2, sdata4 and sdata8; the
  // other forms have none, and the upper half of an encoding does not matter.
  lemma EncodingSizes(encoding: U8)
    ensures Size(0) == 8 && Size(2) == 2 && Size(3) == 4 && Size(4) == 8
    ensures Size(10) == 2 && Size(11) == 4 && Size(12) == 8
    ensures Size(encoding) == Size(encoding % 16)
    ensures encoding % 16 !in {0, 2, 3, 4, 10, 11, 12} ==> Size(encoding) == 0
  {
  }

  predicate InEncoding(encoding: U8, v: int)
    requires Size(encoding) > 0
  {
    if encoding % 16 >= 10 then -(Pow2(8 * Size(encoding) - 1) as int) <= v < Pow2(8 * Size(encoding) - 1)
    else 0 <= v < Pow2(8 * Size(encoding))
  }

  lemma Pow2Half(k: nat)
    ensures Pow2(k + 1) == 2 * Pow2(k)
  {
  }

  // A direct encoded pointer means the number itself, or its distance from where it stands.
  lemma PointerRead(env: Mapping, s: seq<U8>, p: nat, end: nat, encoding: U8, v: int)
    requires encoding < 128 && Size(encoding) > 0 && p + Size(encoding) <= end && InEncoding(encoding, v)
    requires At(s, p, Le(v % Pow2(8 * Size(encoding)), Size(encoding)))
    ensures ReadPtr(env, s, p, end, encoding)
         == Reading(Wrap(v + if encoding / 16 == 1 then env.base + p else 0), p + Size(encoding))
  {
    hide Operand, At, Pow2, Le;
    OperandRead(s, p, encoding, v);
    SumMod(env.base + p, v, TWO64);
  }

  // What the parser reports for an FDE emitted at p.
  function EntryOf(p: nat, f: Fde): seq<Entry>
    requires f.cie <= p
  {
    var cfi := p + 24 + |Augmentation(f.lsda)|;
    if f.addr == 0 then []
    else [Entry(f.addr, f.size, p, cfi, Wrap(p + |FdeRecord(p, f)| - cfi))]
  }

  // An FDE of a good CIE, field by field.
  lemma FdeFields(env: Mapping, s: seq<U8>, p: nat, end: nat, back: nat)
    requires p + 24 < end <= |s| && Word(s, p + 4, 4) == back && 0 < back <= p + 4 && CieGood(s, p + 4 - back)
    ensures var (loc, range) := (Wrap(Word(s, p + 8, 8)), Wrap(Word(s, p + 16, 8)));
            var cfi := SkipAug(s[..end], p + 24);
            FdeAt(env, s, p, p + 4, end) == if loc == 0 then [] else [Entry(loc, range, p, cfi, Wrap(end - cfi))]
  {
    hide Word, CieEncoding, CieAt, SkipAug;
    AbsolutePointer(env, s, p + 8, end);
    AbsolutePointer(env, s, p + 16, end);
    hide ReadPtr, ReadValue;
  }

  lemma FdeBodySize(p: nat, f: Fde)
    requires f.cie <= p
    ensures |FdeBody(p, f)| == 20 + |Augmentation(f.lsda)| + |f.cfi| && |Augmentation(f.lsda)| > 0
  {
    hide Le;
  }

  lemma FdeParsed(env: Mapping, s: seq<U8>, p: nat, f: Fde)
    requires f.cie <= p && At(s, p, FdeRecord(p, f)) && p + |FdeRecord(p, f)| < LIMIT && CieGood(s, f.cie)
    ensures p + 4 <= p + |FdeRecord(p, f)| <= |s|
    ensures FdeAt(env, s, p, p + 4, p + |FdeRecord(p, f)|) == EntryOf(p, f)
  {
    hide At, Word, Record, CieGood, FdeBody, FdeAt, SkipAug, Augmentation, Le, Nops, Pad;
    var end := p + |FdeRecord(p, f)|;
    FdeBodySize(p, f);
    RecordAt(s, p, FdeBody(p, f));
    FdeHeadAt(s, p, f);
    AugAt(s, p + 24, end, f.lsda);
    FdeFields(env, s, p, end, p + 4 - f.cie);
  }

  lemma StepOver(env: Mapping, s: seq<U8>, size: nat, p: nat, body: seq<U8>)
    requires At(s, p, Record(p, body)) && p + |Record(p, body)| <= size <= |s| && size < LIMIT && body != []
    ensures p + 4 <= p + |Record(p, body)|
    ensures FdesFrom(env, s, size, p)
         == FdeAt(env, s, p, p + 4, p + |Record(p, body)|) + FdesFrom(env, s, size, p + |Record(p, body)|)
  {
    hide At, FdesFrom, Record, FdeAt, Word;
    RecordAt(s, p, body);
    Unfolded(env, s, size, p, |Record(p, body)| - 4);
  }

  lemma Unfolded(env: Mapping, s: seq<U8>, size: nat, p: nat, n: nat)
    requires p + 4 + n <= size <= |s| && 0 < n < 0xffff_ffff && Word(s, p, 4) == n
    ensures FdesFrom(env, s, size, p) == FdeAt(env, s, p, p + 4, p + 4 + n) + FdesFrom(env, s, size, p + 4 + n)
  {
    hide Word, FdeAt;
  }

  // --- The CIEs ---

  lemma CieBytesAt(s: seq<U8>, p: nat, body: seq<U8>)
    requires At(s, p, Record(p, body)) && p + |Record(p, body)| < LIMIT
    ensures p <= |s| && CieAt(s, p) == body + Nops(Pad(p + 4 + |body|))
  {
    RecordAt(s, p, body);
    hide Word, Record, Nops, Pad, At;
    var x := p + 4 + |body|;
    TwoParts(s, p + 4, x, x + Pad(x));
  }

  lemma TwoParts(s: seq<U8>, x: nat, y: nat, z: nat)
    requires x <= y <= z <= |s|
    ensures s[x..z] == s[x..y] + s[y..z]
  {
  }

  // Both kinds of CIE: what the parser makes of them, and that their initial instructions
  // are their last three bytes.
  lemma CieEncodingOf(personality: U64, tail: seq<U8>)
    ensures var d := CieBody(personality) + tail;
            && HasZ(d) && CieEncoding(d) == 0
            && NameEnd(d, 5) < |d| && AugEnd(d) == |CieBody(personality)| - 3
  {
    hide Le;
    var d := CieBody(personality) + tail;
    if personality == 0 {
      assert d[..16] == [0, 0, 0, 0, 1, 0x7a, 0x52, 0, 4, 0x78, 30, 1, 0, 12, 31, 0];
      PlainEncoding(d);
    } else {
      assert d[..15] == [0, 0, 0, 0, 1, 0x7a, 0x50, 0x4c, 0x52, 0, 4, 0x78, 30, 11, 0];
      assert d[23..25] == [0, 0];
      FullEncoding(d);
    }
  }

  lemma PlainEncoding(d: seq<U8>)
    requires |d| >= 16 && d[..16] == [0, 0, 0, 0, 1, 0x7a, 0x52, 0, 4, 0x78, 30, 1, 0, 12, 31, 0]
    ensures HasZ(d) && CieEncoding(d) == 0 && NameEnd(d, 5) < |d| && AugEnd(d) == 13
  {
    var h := d[..16];
    assert d[4] == h[4] && d[5] == h[5] && d[6] == h[6] && d[7] == h[7] && d[8] == h[8];
    assert d[9] == h[9] && d[10] == h[10] && d[11] == h[11] && d[12] == h[12];
    NameFound(d, 5, 7);
    assert LebEnd(d, 8) == 9 && LebEnd(d, 9) == 10;
    assert LebEnd(d, 11) == 12 && UlebValue(d, 11) == 1;
    hide LebEnd, UlebValue, NameEnd;
    assert AugEncoding(d, 6, 12, 13) == 0;
  }

  lemma FullEncoding(d: seq<U8>)
    requires |d| >= 28
    requires d[..15] == [0, 0, 0, 0, 1, 0x7a, 0x50, 0x4c, 0x52, 0, 4, 0x78, 30, 11, 0]
    requires d[23..25] == [0, 0]
    ensures HasZ(d) && CieEncoding(d) == 0 && NameEnd(d, 5) < |d| && AugEnd(d) == 25
  {
    var h := d[..15];
    assert d[4] == h[4] && d[5] == h[5] && d[6] == h[6] && d[7] == h[7] && d[8] == h[8] && d[9] == h[9];
    assert d[10] == h[10] && d[11] == h[11] && d[12] == h[12] && d[13] == h[13] && d[14] == h[14];
    assert d[24] == d[23..25][1];
    NameFound(d, 5, 9);
    assert LebEnd(d, 10) == 11 && LebEnd(d, 11) == 12;
    assert LebEnd(d, 13) == 14 && UlebValue(d, 13) == 11;
    hide LebEnd, UlebValue, NameEnd;
    assert SkipPtr(15, 25, 0) == 23;
    assert AugEncoding(d, 8, 24, 25) == 0;
    assert AugEncoding(d, 7, 23, 25) == 0;
    assert AugEncoding(d, 6, 14, 25) == 0;
  }

  lemma CieStart(personality: U64)
    ensures |CieBody(personality)| >= 4 && CieBody(personality)[..4] == [0, 0, 0, 0]
  {
    hide Le;
  }

  lemma CieParsed(env: Mapping, s: seq<U8>, size: nat, p: nat, personality: U64)
    requires At(s, p, Record(p, CieBody(personality)))
    requires p + |Record(p, CieBody(personality))| <= size <= |s| && size < LIMIT
    ensures CieGood(s, p)
    ensures FdesFrom(env, s, size, p) == FdesFrom(env, s, size, p + |Record(p, CieBody(personality))|)
  {
    hide At, CieBody, Record, CieEncoding, Nops, Pad, FdesFrom, Word, CieAt;
    var body := CieBody(personality);
    CieStart(personality);
    CieBytesAt(s, p, body);
    CieEncodingOf(personality, Nops(Pad(p + 4 + |body|)));
    StepOver(env, s, size, p, body);
    RecordAt(s, p, body);
    IdZero(s, p + 4, body);
  }

  lemma IdZero(s: seq<U8>, p: nat, body: seq<U8>)
    requires At(s, p, body) && |body| >= 4 && body[..4] == [0, 0, 0, 0]
    ensures Word(s, p, 4) == 0
  {
    assert body == body[..4] + body[4..];
    AtParts(s, p, body[..4], body[4..]);
    LeZero();
    Pow2Values();
    AtWord(s, p, 0, 4);
  }

  // --- The whole section ---

  function EntriesOf(p: nat, fs: seq<Fde>): seq<Entry>
    requires CiesBelow(p, fs)
    decreases |fs|
  {
    if fs == [] then []
    else EntryOf(p, fs[0]) + EntriesOf(p + |FdeRecord(p, fs[0])|, fs[1..])
  }

  lemma {:induction false} RecordsParsed(env: Mapping, s: seq<U8>, size: nat, p: nat, fs: seq<Fde>)
    requires CiesBelow(p, fs) && At(s, p, Records(p, fs))
    requires p + |Records(p, fs)| <= size <= |s| && size < LIMIT
    requires forall i :: 0 <= i < |fs| ==> CieGood(s, fs[i].cie)
    ensures FdesFrom(env, s, size, p) == EntriesOf(p, fs) + FdesFrom(env, s, size, p + |Records(p, fs)|)
    decreases |fs|
  {
    hide At, FdesFrom, FdeAt, FdeRecord, EntryOf, CieGood, FdeBody;
    if fs != [] {
      var (f, r) := (fs[0], FdeRecord(p, fs[0]));
      var q := p + |r|;
      AtParts(s, p, r, Records(q, fs[1..]));
      FdeIsRecord(p, f);
      FdeParsed(env, s, p, f);
      StepOver(env, s, size, p, FdeBody(p, f));
      RecordsParsed(env, s, size, q, fs[1..]);
      Joined(EntryOf(p, f), EntriesOf(q, fs[1..]), FdesFrom(env, s, size, p + |Records(p, fs)|));
    }
  }

  lemma FdeIsRecord(p: nat, f: Fde)
    requires f.cie <= p
    ensures FdeRecord(p, f) == Record(p, FdeBody(p, f)) && FdeBody(p, f) != []
  {
    assert |FdeHead(p + 4 - f.cie, f.addr, f.size, f.lsda)| >= 4;
  }

  lemma Terminated(env: Mapping, s: seq<U8>, size: nat, p: nat)
    requires At(s, p, Le(0, 4)) && size <= |s|
    ensures FdesFrom(env, s, size, p) == []
  {
    Pow2Values();
    AtWord(s, p, 0, 4);
  }

  // Every CIE an FDE of the section refers to is one of the two at its start.
  lemma {:induction false} FdesUsePlan(plan: Plan, es: seq<CuEntry>)
    ensures forall i :: 0 <= i < |FdesOf(plan, es)| ==>
              FdesOf(plan, es)[i].cie == plan.withCie || FdesOf(plan, es)[i].cie == plan.plainCie
    decreases |es|
  {
    if es != [] {
      hide UsesNative, CfiFor, LsdaOf;
      FdesUsePlan(plan, es[1..]);
    }
  }

  // Where the parts of the section stand.
  lemma SectionParts(text: U64, personality: U64, natives: seq<Native>, es: seq<CuEntry>)
    ensures var s := Section(text, personality, natives, es);
            var (r0, cies) := (Record(0, CieBody(personality)), Cies(personality));
            var fs := FdesOf(PlanFor(text, personality, natives), es);
            && CiesBelow(|cies|, fs)
            && At(s, 0, r0) && At(s, |r0|, Record(|r0|, CieBody(0)))
            && |cies| == |r0| + |Record(|r0|, CieBody(0))|
            && |s| == |cies| + |Records(|cies|, fs)| + 4
            && At(s, |cies|, Records(|cies|, fs)) && At(s, |cies| + |Records(|cies|, fs)|, Le(0, 4))
  {
    hide Record, CieBody, FdesOf, Records, Le, PlanFor, CiesBelow;
    CiesFit(text, personality, natives, es);
    var s := Section(text, personality, natives, es);
    var cies := Cies(personality);
    var r0 := Record(0, CieBody(personality));
    var rs := Records(|cies|, FdesOf(PlanFor(text, personality, natives), es));
    assert At(s, 0, cies + rs + Le(0, 4));
    hide At;
    AtParts(s, 0, cies + rs, Le(0, 4));
    AtParts(s, 0, cies, rs);
    AtParts(s, 0, r0, Record(|r0|, CieBody(0)));
  }

  lemma AtLonger(s: seq<U8>, more: seq<U8>, p: nat, x: seq<U8>)
    requires At(s, p, x)
    ensures At(s + more, p, x)
  {
  }

  // Whatever is mapped after the section.
  lemma SectionParsed(env: Mapping, text: U64, personality: U64, natives: seq<Native>, es: seq<CuEntry>, after: seq<U8>)
    requires |Section(text, personality, natives, es)| < LIMIT
    ensures var (s, fs) := (Section(text, personality, natives, es), FdesOf(PlanFor(text, personality, natives), es));
            && CiesBelow(|Cies(personality)|, fs)
            && FdesFrom(env, s + after, |s|, 0) == EntriesOf(|Cies(personality)|, fs)
  {
    var plan := PlanFor(text, personality, natives);
    var fs := FdesOf(plan, es);
    FdesUsePlan(plan, es);
    hide Record, CieBody, FdesOf, Records, FdesFrom, CieGood, EntriesOf, Le, At, Section, Cies, CiesBelow;
    var (s, cies) := (Section(text, personality, natives, es), Cies(personality));
    SectionParts(text, personality, natives, es);
    var (m, size, n) := (s + after, |s|, |cies| + |Records(|cies|, fs)|);
    AtLonger(s, after, 0, Record(0, CieBody(personality)));
    AtLonger(s, after, plan.plainCie, Record(plan.plainCie, CieBody(0)));
    AtLonger(s, after, |cies|, Records(|cies|, fs));
    AtLonger(s, after, n, Le(0, 4));
    CieParsed(env, m, size, 0, personality);
    CieParsed(env, m, size, plan.plainCie, 0);
    RecordsParsed(env, m, size, |cies|, fs);
    Terminated(env, m, size, n);
    assert EntriesOf(|cies|, fs) + [] == EntriesOf(|cies|, fs);
  }
}
