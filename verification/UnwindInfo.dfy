// The raw __unwind_info section: its header, index, LSDA tables and second-level pages,
// as collect_entries reads them; and what it finds in any section that lays tables out.
module UnwindInfo {
  import opened Bits
  import opened Options
  import opened Words
  import opened EhEmit
  import opened Unwind

  // --- Reading ---

  lemma WordFits(s: seq<U8>, p: nat)
    ensures Word(s, p, 4) < TWO32 && Word(s, p, 2) < 0x1_0000
  {
    Pow2Values();
    hide Word, Pow2;
    WordBound(s, p, 4);
    WordBound(s, p, 2);
  }

  // The memory from the start of the section on; s is what is mapped there.
  function U32At(s: seq<U8>, p: nat): U32 {
    WordFits(s, p);
    Word(s, p, 4)
  }

  function U16At(s: seq<U8>, p: nat): (r: nat)
    ensures r < 0x1_0000
  {
    WordFits(s, p);
    Word(s, p, 2)
  }

  // n words, `stride` bytes apart.
  function Column(s: seq<U8>, p: nat, n: nat, stride: nat): seq<U32> {
    seq(n, i requires 0 <= i < n => U32At(s, p + stride * i))
  }

  function PageAt(s: seq<U8>, p: nat): Page {
    var kind, at, n := U32At(s, p), p + U16At(s, p + 4), U16At(s, p + 6);
    if kind == 3 then Compressed(Column(s, at, n, 4), Column(s, p + U16At(s, p + 8), U16At(s, p + 10), 4))
    else if kind == 2 then Regular(Column(s, at, n, 8), Column(s, at + 4, n, 8))
    else Other
  }

  // The entries from `start` up to `end`, eight bytes each; the difference is a uint32_t.
  function LsdasAt(s: seq<U8>, start: U32, end: U32): seq<Lsda> {
    var n := (end - start) % TWO32 / 8;
    seq(n, i requires 0 <= i < n => Lsda(U32At(s, start + 8 * i), U32At(s, start + 8 * i + 4)))
  }

  // The k-th first-level entry, twelve bytes each; its LSDA entries end where the next
  // entry's begin.
  function IndexAt(s: seq<U8>, size: nat, k: nat): Index {
    var p := U32At(s, 20) + 12 * k;
    var page := U32At(s, p + 4);
    Index(U32At(s, p),
          if page == 0 || page >= size then None else Some(PageAt(s, page)),
          LsdasAt(s, U32At(s, p + 8), U32At(s, p + 20)))
  }

  // All entries but the last, which only ends the tables.
  function Indexes(s: seq<U8>, size: nat): seq<Index> {
    var n := U32At(s, 24);
    if n == 0 then [] else seq(n - 1, k requires 0 <= k < n - 1 => IndexAt(s, size, k))
  }

  function Common(s: seq<U8>): seq<U32> {
    Column(s, U32At(s, 4), U32At(s, 8), 4)
  }

  lemma RawWellFormed(s: seq<U8>, size: nat)
    ensures WellFormed(Indexes(s, size))
  {
    hide U32At, U16At, LsdasAt;
  }

  // collect_entries on the section; nothing when the version is not 1.
  method CollectSection(s: seq<U8>, size: nat) returns (r: Option<array<CuEntry>>)
    ensures r.Some? <==> U32At(s, 0) == 1
    ensures WellFormed(Indexes(s, size))
    ensures r.Some? ==> fresh(r.value) && r.value[..] == Sized(Sort(AllEntries(Indexes(s, size), Common(s))))
  {
    RawWellFormed(s, size);
    hide U32At, Indexes, Common, Sized, Sort, AllEntries;
    if U32At(s, 0) != 1 {
      return None;
    }
    var a := Collect(Indexes(s, size), Common(s));
    r := Some(a);
  }

  // --- Sections that lay out given tables ---

  ghost predicate TableLies(s: seq<U8>, p: nat, ws: seq<U32>) {
    forall i :: 0 <= i < |ws| ==> At(s, p + 4 * i, Le(ws[i], 4))
  }

  ghost predicate PairsLie(s: seq<U8>, p: nat, a: seq<U32>, b: seq<U32>) {
    |a| == |b| && forall i :: 0 <= i < |a| ==> At(s, p + 8 * i, Le(a[i], 4)) && At(s, p + 8 * i + 4, Le(b[i], 4))
  }

  // The page at p; its entries and encodings start at p + entries and p + encodings.
  ghost predicate PageLies(s: seq<U8>, p: nat, page: Page, entries: nat, encodings: nat) {
    entries < 0x1_0000 && encodings < 0x1_0000 &&
    match page
    case Compressed(es, cs) =>
      && |es| < 0x1_0000 && |cs| < 0x1_0000
      && At(s, p, Le(3, 4)) && At(s, p + 4, Le(entries, 2)) && At(s, p + 6, Le(|es|, 2))
      && At(s, p + 8, Le(encodings, 2)) && At(s, p + 10, Le(|cs|, 2))
      && TableLies(s, p + entries, es) && TableLies(s, p + encodings, cs)
    case Regular(fs, cs) =>
      && |fs| < 0x1_0000
      && At(s, p, Le(2, 4)) && At(s, p + 4, Le(entries, 2)) && At(s, p + 6, Le(|fs|, 2))
      && PairsLie(s, p + entries, fs, cs)
    case Other => U32At(s, p) != 2 && U32At(s, p) != 3
  }

  // Where the parts of one first-level entry are: its page and that page's tables, and
  // its LSDA entries.
  datatype Place = Place(page: U32, entries: nat, encodings: nat, lsdas: U32)

  ghost predicate LsdasLie(s: seq<U8>, p: nat, ls: seq<Lsda>) {
    forall i :: 0 <= i < |ls| ==>
      At(s, p + 8 * i, Le(ls[i].function_, 4)) && At(s, p + 8 * i + 4, Le(ls[i].offset, 4))
  }

  // Entry i of the index, at p.
  ghost predicate EntryLies(s: seq<U8>, size: nat, p: nat, i: Index, w: Place, next: U32) {
    && At(s, p, Le(i.base, 4)) && At(s, p + 4, Le(w.page, 4)) && At(s, p + 8, Le(w.lsdas, 4))
    && At(s, p + 20, Le(next, 4))
    && (i.page.None? <==> w.page == 0 || w.page >= size)
    && (i.page.Some? ==> PageLies(s, w.page, i.page.value, w.entries, w.encodings))
    && w.lsdas + 8 * |i.lsdas| == next && LsdasLie(s, w.lsdas, i.lsdas)
  }

  // A version 1 section with these tables, placed anywhere; places has one more element,
  // whose lsdas ends the last LSDA table.
  ghost predicate Lies(s: seq<U8>, size: nat, ix: seq<Index>, common: seq<U32>, indexAt: U32, commonAt: U32,
                       places: seq<Place>)
  {
    && |ix| + 1 < TWO32 && |common| < TWO32 && |places| == |ix| + 1
    && At(s, 0, Le(1, 4)) && At(s, 4, Le(commonAt, 4)) && At(s, 8, Le(|common|, 4))
    && At(s, 20, Le(indexAt, 4)) && At(s, 24, Le(|ix| + 1, 4))
    && TableLies(s, commonAt, common)
    && forall k :: 0 <= k < |ix| ==> EntryLies(s, size, indexAt + 12 * k, ix[k], places[k], places[k + 1].lsdas)
  }

  lemma Read32(s: seq<U8>, p: nat, v: U32)
    requires At(s, p, Le(v, 4))
    ensures U32At(s, p) == v
  {
    Pow2Values();
    hide Pow2, Le, At, Word;
    AtWord(s, p, v, 4);
  }

  lemma Read16(s: seq<U8>, p: nat, v: nat)
    requires At(s, p, Le(v, 2)) && v < 0x1_0000
    ensures U16At(s, p) == v
  {
    Pow2Values();
    hide Pow2, Le, At, Word;
    AtWord(s, p, v, 2);
  }

  lemma TableRead(s: seq<U8>, p: nat, ws: seq<U32>)
    requires TableLies(s, p, ws)
    ensures Column(s, p, |ws|, 4) == ws
  {
    hide At, Le, U32At;
    forall i | 0 <= i < |ws|
      ensures Column(s, p, |ws|, 4)[i] == ws[i]
    {
      Read32(s, p + 4 * i, ws[i]);
    }
  }

  lemma PairsRead(s: seq<U8>, p: nat, a: seq<U32>, b: seq<U32>)
    requires PairsLie(s, p, a, b)
    ensures Column(s, p, |a|, 8) == a && Column(s, p + 4, |a|, 8) == b
  {
    hide At, Le, U32At;
    forall i | 0 <= i < |a|
      ensures Column(s, p, |a|, 8)[i] == a[i] && Column(s, p + 4, |a|, 8)[i] == b[i]
    {
      Read32(s, p + 8 * i, a[i]);
      Read32(s, p + 8 * i + 4, b[i]);
    }
  }

  lemma LsdasRead(s: seq<U8>, p: U32, ls: seq<Lsda>, end: U32)
    requires p + 8 * |ls| == end && LsdasLie(s, p, ls)
    ensures LsdasAt(s, p, end) == ls
  {
    hide At, Le, U32At;
    forall i | 0 <= i < |ls|
      ensures LsdasAt(s, p, end)[i] == ls[i]
    {
      Read32(s, p + 8 * i, ls[i].function_);
      Read32(s, p + 8 * i + 4, ls[i].offset);
    }
  }

  lemma PageRead(s: seq<U8>, p: nat, page: Page, entries: nat, encodings: nat)
    requires PageLies(s, p, page, entries, encodings)
    ensures PageAt(s, p) == page
  {
    hide At, Le, U32At, U16At, Column, TableLies, PairsLie;
    match page
    case Compressed(es, cs) =>
      Read32(s, p, 3);
      Read16(s, p + 4, entries);
      Read16(s, p + 6, |es|);
      Read16(s, p + 8, encodings);
      Read16(s, p + 10, |cs|);
      TableRead(s, p + entries, es);
      TableRead(s, p + encodings, cs);
    case Regular(fs, cs) =>
      Read32(s, p, 2);
      Read16(s, p + 4, entries);
      Read16(s, p + 6, |fs|);
      PairsRead(s, p + entries, fs, cs);
    case Other =>
  }

  lemma EntryRead(s: seq<U8>, size: nat, k: nat, i: Index, w: Place, next: U32)
    requires EntryLies(s, size, U32At(s, 20) + 12 * k, i, w, next)
    ensures IndexAt(s, size, k) == i
  {
    hide At, Le, U32At, PageAt, LsdasAt, PageLies, LsdasLie;
    var p := U32At(s, 20) + 12 * k;
    Read32(s, p, i.base);
    Read32(s, p + 4, w.page);
    Read32(s, p + 8, w.lsdas);
    Read32(s, p + 20, next);
    LsdasRead(s, w.lsdas, i.lsdas, next);
    if i.page.Some? {
      PageRead(s, w.page, i.page.value, w.entries, w.encodings);
    }
  }

  // Wherever a version 1 section places its tables, they are read back.
  lemma LaidOutRead(s: seq<U8>, size: nat, ix: seq<Index>, common: seq<U32>, indexAt: U32, commonAt: U32,
                    places: seq<Place>)
    requires Lies(s, size, ix, common, indexAt, commonAt, places)
    ensures U32At(s, 0) == 1 && Indexes(s, size) == ix && Common(s) == common
  {
    hide At, Le, U32At, Column, TableLies, EntryLies, IndexAt;
    Read32(s, 0, 1);
    Read32(s, 4, commonAt);
    Read32(s, 8, |common|);
    Read32(s, 20, indexAt);
    Read32(s, 24, |ix| + 1);
    TableRead(s, commonAt, common);
    forall k | 0 <= k < |ix|
      ensures IndexAt(s, size, k) == ix[k]
    {
      EntryRead(s, size, k, ix[k], places[k], places[k + 1].lsdas);
    }
  }

  // So the collected entries are those of the tables, sorted, each up to the next.
  lemma LaidOutCollected(s: seq<U8>, size: nat, ix: seq<Index>, common: seq<U32>, indexAt: U32, commonAt: U32,
                         places: seq<Place>)
    requires Lies(s, size, ix, common, indexAt, commonAt, places)
    ensures WellFormed(ix) && WellFormed(Indexes(s, size))
    ensures var (all, r) := (AllEntries(ix, common), Sized(Sort(AllEntries(Indexes(s, size), Common(s)))));
            && |r| == |all| && multiset(Unsized(r)) == multiset(all)
            && (forall i :: 0 <= i < |r| - 1 ==> r[i].offset + r[i].size == r[i + 1].offset)
            && (r != [] ==> r[|r| - 1].size == 256)
  {
    hide *;
    LaidOutRead(s, size, ix, common, indexAt, commonAt, places);
    RawWellFormed(s, size);
    CollectedList(ix, common);
  }

  // --- From the functions a section describes ---

  datatype Func = Func(offset: U32, encoding: U32)

  // Where a compressed page finds an encoding: the common ones first, then its own, and 0
  // beyond both.
  function Numbered(common: seq<U32>, local: seq<U32>, idx: nat): U32 {
    if idx < |common + local| then (common + local)[idx] else 0
  }

  // The page of i holds these functions in this order; `at` numbers their encodings.
  ghost predicate Holds(i: Index, common: seq<U32>, fs: seq<Func>, at: seq<nat>) {
    |at| == |fs| &&
    match i.page
    case Some(Compressed(es, local)) =>
      && |es| == |fs|
      && forall k :: 0 <= k < |fs| ==>
           && at[k] < 256 && i.base <= fs[k].offset < i.base + 0x100_0000
           && es[k] == at[k] * 0x100_0000 + (fs[k].offset - i.base)
           && fs[k].encoding == Numbered(common, local, at[k])
    case Some(Regular(os, cs)) =>
      && |os| == |cs| == |fs|
      && forall k :: 0 <= k < |fs| ==> os[k] == fs[k].offset && cs[k] == fs[k].encoding
    case _ => fs == []
  }

  // What the collector should make of a function: its LSDA if bit 30 of the encoding says
  // so and one is listed.
  function EntryFor(lsdas: seq<Lsda>, f: Func): CuEntry {
    CuEntry(f.offset, 0, f.encoding, if f.encoding / 0x4000_0000 % 2 == 1 then Linear(lsdas, f.offset, 0) else 0)
  }

  function EntriesFor(lsdas: seq<Lsda>, fs: seq<Func>): seq<CuEntry> {
    if fs == [] then [] else EntriesFor(lsdas, fs[..|fs| - 1]) + [EntryFor(lsdas, fs[|fs| - 1])]
  }

  function AllFor(ix: seq<Index>, groups: seq<seq<Func>>): seq<CuEntry>
    requires |groups| == |ix|
  {
    if ix == [] then []
    else
      var n := |ix| - 1;
      AllFor(ix[..n], groups[..n]) + EntriesFor(ix[n].lsdas, groups[n])
  }

  lemma CompressedEncoding(common: seq<U32>, local: seq<U32>, idx: nat)
    ensures EncodingAt(common, local, idx) == Numbered(common, local, idx)
  {
  }

  lemma EntryIs(i: Index, common: seq<U32>, fs: seq<Func>, at: seq<nat>, k: nat)
    requires WellFormed([i]) && Holds(i, common, fs, at) && Increasing(i.lsdas) && k < PageCount(i)
    ensures PageCount(i) == |fs| && EntryAt(i, common, k) == EntryFor(i.lsdas, fs[k])
  {
    assert [i][0] == i;
    SearchAgrees(i.lsdas, fs[k].offset, 0, |i.lsdas| - 1);
    hide Search, Linear, Increasing, EncodingAt, Numbered;
    if i.page.value.Compressed? {
      CompressedEncoding(common, i.page.value.encodings, at[k]);
      DivModUnique(i.page.value.entries[k], 0x100_0000, at[k], fs[k].offset - i.base);
    }
  }

  lemma {:induction false} PageIs(i: Index, common: seq<U32>, fs: seq<Func>, at: seq<nat>, n: nat)
    requires WellFormed([i]) && Holds(i, common, fs, at) && Increasing(i.lsdas) && n <= PageCount(i) <= |fs|
    ensures PageEntries(i, common, n) == EntriesFor(i.lsdas, fs[..n])
    decreases n
  {
    hide EntryAt, EntryFor;
    if n > 0 {
      PageIs(i, common, fs, at, n - 1);
      EntryIs(i, common, fs, at, n - 1);
      assert fs[..n][..n - 1] == fs[..n - 1];
    }
  }

  lemma HoldsCount(i: Index, common: seq<U32>, fs: seq<Func>, at: seq<nat>)
    requires Holds(i, common, fs, at)
    ensures PageCount(i) == |fs|
  {
  }

  ghost predicate AllHold(ix: seq<Index>, common: seq<U32>, groups: seq<seq<Func>>, ats: seq<seq<nat>>) {
    |groups| == |ats| == |ix| &&
    forall k :: 0 <= k < |ix| ==> Holds(ix[k], common, groups[k], ats[k]) && Increasing(ix[k].lsdas)
  }

  lemma {:induction false} AllAre(ix: seq<Index>, common: seq<U32>, groups: seq<seq<Func>>, ats: seq<seq<nat>>)
    requires WellFormed(ix) && AllHold(ix, common, groups, ats)
    ensures AllEntries(ix, common) == AllFor(ix, groups)
    decreases |ix|
  {
    hide Holds, Increasing, PageEntries, EntriesFor;
    if ix != [] {
      var n := |ix| - 1;
      var i := ix[n];
      assert WellFormed([i]) by { assert [i][0] == i; }
      AllAre(ix[..n], common, groups[..n], ats[..n]);
      HoldsCount(i, common, groups[n], ats[n]);
      PageIs(i, common, groups[n], ats[n], |groups[n]|);
      assert groups[n][..|groups[n]|] == groups[n];
    }
  }

  // A section that describes functions page by page, compressed or not: the collected list
  // holds exactly these functions with their encodings and LSDAs, each up to the next.
  lemma FunctionsCollected(s: seq<U8>, size: nat, ix: seq<Index>, common: seq<U32>, indexAt: U32, commonAt: U32,
                           places: seq<Place>, groups: seq<seq<Func>>, ats: seq<seq<nat>>)
    requires Lies(s, size, ix, common, indexAt, commonAt, places) && AllHold(ix, common, groups, ats)
    ensures WellFormed(Indexes(s, size))
    ensures var (all, r) := (AllFor(ix, groups), Sized(Sort(AllEntries(Indexes(s, size), Common(s)))));
            && |r| == |all| && multiset(Unsized(r)) == multiset(all)
            && (forall i :: 0 <= i < |r| - 1 ==> r[i].offset + r[i].size == r[i + 1].offset)
            && (r != [] ==> r[|r| - 1].size == 256)
  {
    LaidOutCollected(s, size, ix, common, indexAt, commonAt, places);
    hide Lies, AllFor, AllEntries, Sized, Sort, Indexes, Common, Unsized;
    AllAre(ix, common, groups, ats);
  }
}
