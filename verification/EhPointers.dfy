// The numbers of an emitted .eh_frame section that the unwinder follows: alignment factors,
// the personality and LSDA pointers, and what a copied FDE takes from the native one.
module EhPointers {
  import opened Bits
  import opened Leb
  import opened Words
  import opened CString
  import opened Cfi
  import opened EhEmit
  import opened EhParse
  import opened EhRoundTrip
  import opened EhResults
  import opened EhLimits
  import opened Compact

  // --- CIEs ---

  // The version, the code and data alignment factors by which the rows were read, and the
  // return address column; then, with a personality, its absolute address.
  lemma CieNumbers(s: seq<U8>, p: nat, personality: U64)
    requires At(s, p, Record(p, CieBody(personality))) && p + |Record(p, CieBody(personality))| < LIMIT
    ensures p <= |s|
    ensures var d := CieAt(s, p);
            && |d| > 4 && NameEnd(d, 5) < |d| && d[4] == 1
            && var q := NameEnd(d, 5) + 1;
            && UlebValue(d, q) == 4 == CODE_ALIGN
            && SlebValue(d, LebEnd(d, q)) == -8 == DATA_ALIGN
            && LebEnd(d, LebEnd(d, q)) < |d| && d[LebEnd(d, LebEnd(d, q))] == 30 == LR
            && (personality != 0 ==> |d| > 23 && d[14] == 0 && Word(d, 15, 8) == personality)
  {
    hide At, CieBody, Record, CieAt, Nops, Pad, UlebValue, SlebValue, LebEnd, NameEnd, Word;
    CieBytesAt(s, p, CieBody(personality));
    BodyNumbers(personality, Nops(Pad(p + 4 + |CieBody(personality)|)));
  }

  lemma BodyNumbers(personality: U64, tail: seq<U8>)
    ensures var d := CieBody(personality) + tail;
            && |d| > 4 && NameEnd(d, 5) < |d| && d[4] == 1
            && var q := NameEnd(d, 5) + 1;
            && UlebValue(d, q) == 4 && SlebValue(d, LebEnd(d, q)) == -8
            && LebEnd(d, LebEnd(d, q)) < |d| && d[LebEnd(d, LebEnd(d, q))] == 30
            && (personality != 0 ==> |d| > 23 && d[14] == 0 && Word(d, 15, 8) == personality)
  {
    BodyBytes(personality, tail);
    hide Le, CieBody, NameEnd, LebEnd, UlebValue, SlebValue, Word;
    var d := CieBody(personality) + tail;
    if personality == 0 {
      FactorsRead(d, 7, d[..16]);
    } else {
      FactorsRead(d, 9, d[..15]);
      PersonalityRead(d, personality);
    }
  }

  lemma BodyBytes(personality: U64, tail: seq<U8>)
    ensures var d := CieBody(personality) + tail;
            if personality == 0 then |d| >= 16 && d[..16] == [0, 0, 0, 0, 1, 0x7a, 0x52, 0, 4, 0x78, 30, 1, 0, 12, 31, 0]
            else
              && |d| > 23 && d[..15] == [0, 0, 0, 0, 1, 0x7a, 0x50, 0x4c, 0x52, 0, 4, 0x78, 30, 11, 0]
              && d[15..23] == Le(personality, 8)
  {
    hide Le;
  }

  lemma PersonalityRead(d: seq<U8>, personality: U64)
    requires |d| >= 23 && d[15..23] == Le(personality, 8)
    ensures Word(d, 15, 8) == personality
  {
    Pow2Values();
    hide Pow2, Word, Le;
    AtWord(d, 15, personality, 8);
  }

  lemma FactorsRead(d: seq<U8>, z: nat, h: seq<U8>)
    requires 7 <= z <= 9 && |h| > z + 3 && |d| >= |h| && d[..|h|] == h && h[4] == 1 && h[z] == 0
    requires (forall i :: 5 <= i < z ==> h[i] != 0) && h[z + 1] == 4 && h[z + 2] == 0x78 && h[z + 3] == 30
    ensures NameEnd(d, 5) == z && d[4] == 1
    ensures UlebValue(d, z + 1) == 4 && LebEnd(d, z + 1) == z + 2
    ensures SlebValue(d, z + 2) == -8 && LebEnd(d, z + 2) == z + 3 && d[z + 3] == 30
  {
    assert forall i :: 0 <= i < |h| ==> d[i] == h[i];
    NameFound(d, 5, z);
  }

  // --- FDEs ---

  // An FDE with an LSDA pointer holds it right after the length of its augmentation data.
  lemma LsdaAt(s: seq<U8>, p: nat, f: Fde)
    requires f.cie <= p && At(s, p, FdeRecord(p, f)) && p + |FdeRecord(p, f)| < LIMIT && f.lsda != 0
    ensures p + 33 <= |s| && s[p + 24] == 8 && Word(s, p + 25, 8) == f.lsda
  {
    hide Record, FdeBody, Nops, Pad, Word, Le, At, Pow2;
    FdeBodySize(p, f);
    RecordAligned(p, FdeBody(p, f));
    RecordAt(s, p, FdeBody(p, f));
    FdeHeadAt(s, p, f);
    AtParts(s, p + 24, [8], Le(f.lsda, 8));
    AtByte(s, p + 24, 8);
    AtBound(s, p + 25, Le(f.lsda, 8));
    Pow2Values();
    AtWord(s, p + 25, f.lsda, 8);
  }

  // Every entry with the LSDA bit and an offset has the absolute address in its FDE.
  lemma LsdaPointer(text: U64, personality: U64, natives: seq<Native>, es: seq<CuEntry>, k: nat, c: Compact) returns (h: Header)
    requires |Section(text, personality, natives, es)| < LIMIT && k < |es|
    requires Fits(c) && es[k].encoding == EncodingOf(c) && c.lsda && es[k].lsda != 0 && (text + es[k].lsda) % TWO64 != 0
    requires FdeOf(PlanFor(text, personality, natives), es[k]).Some?
    ensures var s := Section(text, personality, natives, es);
            && h in HeadersFrom(s, 0) && h.start == (text + es[k].offset) % TWO64
            && h.fde + 33 <= |s| && s[h.fde + 24] == 8 && Word(s, h.fde + 25, 8) == (text + es[k].lsda) % TWO64
  {
    hide *;
    FieldsFound(c);
    EntryNumbers(text, personality, natives, es[k]);
    var plan := PlanFor(text, personality, natives);
    var (s, n, fs) := (Section(text, personality, natives, es), |Cies(personality)|, FdesOf(plan, es));
    var f := FdeOf(plan, es[k]).value;
    var i := FdeListed(plan, es, k);
    SectionHeaders(text, personality, natives, es);
    SectionAligned(text, personality, natives, es);
    SectionParts(text, personality, natives, es);
    FdePlaced(s, n, fs, i);
    HeaderListed(n, fs, i);
    h := HeadersOf(n, fs)[i];
    PlacedInside(s, h.fde, f);
    LsdaAt(s, h.fde, f);
  }

  lemma EntryNumbers(text: U64, personality: U64, natives: seq<Native>, e: CuEntry)
    requires FdeOf(PlanFor(text, personality, natives), e).Some?
    ensures var f := FdeOf(PlanFor(text, personality, natives), e).value;
            && f.addr == (text + e.offset) % TWO64
            && (HasLsda(e.encoding) && e.lsda != 0 ==> f.lsda == (text + e.lsda) % TWO64)
  {
    FdeLsda(PlanFor(text, personality, natives), e);
    hide Record, CieBody, CfiFor, FindFrom, HasLsda;
  }

  // --- Copies ---

  // n starts at a, or a lies inside it.
  predicate Holds(n: Native, a: U64) {
    a == n.start || n.start <= a < n.start + n.range
  }

  // The parsed natives do not run over the end of memory.
  predicate Bounded(natives: seq<Native>) {
    forall i :: 0 <= i < |natives| ==> natives[i].start + natives[i].range < TWO64
  }

  // An entry with an LSDA pointer inside native FDEs takes the first one's instructions and
  // its range, or its own size if that is 0: the parser finds exactly these in the section.
  lemma CopyFound(env: Mapping, text: U64, personality: U64, natives: seq<Native>, es: seq<CuEntry>, after: seq<U8>,
                  k: nat, c: Compact, j: nat) returns (e: Entry)
    requires |Section(text, personality, natives, es)| < LIMIT && k < |es| && Bounded(natives)
    requires Fits(c) && es[k].encoding == EncodingOf(c) && c.lsda && es[k].lsda != 0 && (text + es[k].lsda) % TWO64 != 0
    requires var a := (text + es[k].offset) % TWO64;
             && a != 0 && j < |natives| && Holds(natives[j], a) && natives[j].cfi != []
             && forall i :: 0 <= i < j ==> !Holds(natives[i], a)
    ensures var s := Section(text, personality, natives, es);
            && e in FdesFrom(env, s + after, |s|, 0)
            && e.start == (text + es[k].offset) % TWO64
            && e.range == (if natives[j].range != 0 then natives[j].range % TWO32 else es[k].size)
            && e.cfi + e.cfiSize <= |s| && |natives[j].cfi| <= e.cfiSize
            && s[e.cfi..e.cfi + e.cfiSize] == natives[j].cfi + Nops(e.cfiSize - |natives[j].cfi|)
  {
    hide *;
    FieldsFound(c);
    CopyFde(text, personality, natives, es[k], j);
    e := EntryFound(env, text, personality, natives, es, after, k);
  }

  lemma CopyFde(text: U64, personality: U64, natives: seq<Native>, e: CuEntry, j: nat)
    requires Bounded(natives) && HasLsda(e.encoding) && e.lsda != 0 && (text + e.lsda) % TWO64 != 0
    requires var a := (text + e.offset) % TWO64;
             && j < |natives| && Holds(natives[j], a) && natives[j].cfi != []
             && forall i :: 0 <= i < j ==> !Holds(natives[i], a)
    ensures var f := FdeOf(PlanFor(text, personality, natives), e);
            && f.Some? && f.value.addr == (text + e.offset) % TWO64 && f.value.cfi == natives[j].cfi
            && f.value.size == if natives[j].range != 0 then natives[j].range % TWO32 else e.size
  {
    hide Record, CieBody, CfiFor, HasLsda;
    var a := (text + e.offset) % TWO64;
    forall i | 0 <= i < |natives|
      ensures Covers(natives[i], a) <==> Holds(natives[i], a)
    {
      CoversMeans(natives[i], a);
    }
    hide Covers, Holds;
    FirstCover(natives, a, j);
    hide FindFrom;
  }

  lemma CoversMeans(n: Native, a: U64)
    requires n.start + n.range < TWO64
    ensures Covers(n, a) <==> Holds(n, a)
  {
  }

  lemma FirstCover(natives: seq<Native>, a: U64, j: nat)
    requires j < |natives| && Covers(natives[j], a) && forall i :: 0 <= i < j ==> !Covers(natives[i], a)
    ensures FindFrom(natives, a, 0) == j
  {
    hide Covers;
  }
}
