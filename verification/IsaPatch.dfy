// isa_emul_estimate_pool_size and isa_emul_patch: every LSE and BCAX word of a
// code section becomes a B to an island in the pool. Addresses are in words.
module IsaPatch {
  import opened Bits
  import opened Options
  import opened A64
  import opened Lse
  import opened Island
  import opened Bcax

  // The island for a word, or nothing if the word needs none; ret is the
  // address of the following word relative to the island.
  function IslandFor(w: U32, ret: int): Option<seq<Instr>> {
    if DecodeLse(w).Some? then Some(IslandCode(PlanFor(DecodeLse(w).value), ret))
    else if DecodeBcax(w).Some? then Some(BcaxCode(DecodeBcax(w).value, ret))
    else None
  }

  // No BCAX word is taken for an LSE instruction.
  lemma BcaxIslandFor(w: U32, ret: int)
    requires DecodeBcax(w).Some?
    ensures DecodeLse(w).None? && IslandFor(w, ret) == Some(BcaxCode(DecodeBcax(w).value, ret))
  {
  }

  predicate NeedsIsland(w: U32) {
    DecodeLse(w).Some? || DecodeBcax(w).Some?
  }

  // The words a site reserves before it is patched.
  function Reserve(w: U32): nat {
    if DecodeLse(w).Some? then 24 else if DecodeBcax(w).Some? then 5 else 0
  }

  lemma IslandWithinReserve(w: U32, ret: int)
    requires NeedsIsland(w)
    ensures IslandFor(w, ret).Some? && 3 <= |IslandFor(w, ret).value| <= Reserve(w)
    ensures forall i :: i in IslandFor(w, ret).value ==> FieldsFit(i) && !i.Other?
  {
    if DecodeLse(w).Some? {
      LseEncodable(PlanFor(DecodeLse(w).value), ret);
    }
  }

  lemma BodyEncodable(k: Plan, j: nat)
    requires j < |Body(k)|
    ensures FieldsFit(Body(k)[j]) && !Body(k)[j].Other?
  {
  }

  lemma PhaseEncodable(k: Plan, ret: int, ph: Phase)
    requires k.d.size < 4 && PhaseOk(k, ph)
    ensures FieldsFit(InstrOf(k, ret, ph)) && !InstrOf(k, ret, ph).Other?
  {
    match ph
    case Compute(j) => BodyEncodable(k, j);
    case _ =>
  }

  lemma LseEncodable(k: Plan, ret: int)
    requires k.d.size < 4
    ensures 3 <= |IslandCode(k, ret)| <= 24
    ensures forall i :: i in IslandCode(k, ret) ==> FieldsFit(i) && !i.Other?
  {
    IslandFits(k, ret);
    hide *;
    CodeAt(k, ret, 0);
    forall pc | 0 <= pc < |IslandCode(k, ret)|
      ensures FieldsFit(IslandCode(k, ret)[pc]) && !IslandCode(k, ret)[pc].Other?
    {
      CodeAt(k, ret, pc);
      PhaseAt(k, pc);
      PhaseEncodable(k, ret, PhaseOf(k, pc));
    }
  }

  function EncodeAll(code: seq<Instr>): (ws: seq<U32>)
    requires forall i :: i in code ==> FieldsFit(i)
    ensures |ws| == |code|
  {
    seq(|code|, j requires 0 <= j < |code| => Encode(code[j]))
  }

  // isa_emul_estimate_pool_size
  function EstimateWords(code: seq<U32>): nat {
    if code == [] then 0 else Reserve(code[0]) + EstimateWords(code[1..])
  }

  // How many of the words are atomic instructions, and how many are BCAX.
  ghost function LseSites(code: seq<U32>): nat {
    if code == [] then 0 else (if DecodeLse(code[0]).Some? then 1 else 0) + LseSites(code[1..])
  }

  ghost function BcaxSites(code: seq<U32>): nat {
    if code == [] then 0 else (if DecodeBcax(code[0]).Some? then 1 else 0) + BcaxSites(code[1..])
  }

  // 24 words for each atomic instruction and 5 for each BCAX: no word is both.
  lemma {:induction false} EstimateCounts(code: seq<U32>)
    ensures EstimateWords(code) == 24 * LseSites(code) + 5 * BcaxSites(code)
    decreases |code|
  {
    hide DecodeLse, DecodeBcax, IslandFor;
    if code != [] {
      EstimateCounts(code[1..]);
      if DecodeBcax(code[0]).Some? {
        BcaxIslandFor(code[0], 0);
      }
    }
  }

  method EstimatePoolSize(code: array<U32>, codeSize: nat) returns (bytes: nat)
    requires codeSize / 4 <= code.Length
    ensures bytes == 4 * EstimateWords(code[..codeSize / 4])
    ensures bytes == 96 * LseSites(code[..codeSize / 4]) + 20 * BcaxSites(code[..codeSize / 4])
  {
    var count := codeSize / 4;
    var words := 0;
    ghost var all := code[..count];
    for i := 0 to count
      invariant words + EstimateWords(all[i..]) == EstimateWords(all)
    {
      assert all[i..][1..] == all[i + 1..];
      words := words + Reserve(code[i]);
    }
    assert all[count..] == [];
    EstimateCounts(all);
    bytes := words * 4;
  }

  // Write the encoded instructions at island[at..].
  method Emit(island: array<U32>, at: nat, code: seq<Instr>)
    requires at + |code| <= island.Length
    requires forall i :: i in code ==> FieldsFit(i)
    modifies island
    ensures island[at..at + |code|] == EncodeAll(code)
    ensures island[..at] == old(island[..at]) && island[at + |code|..] == old(island[at + |code|..])
  {
    for n := 0 to |code|
      invariant forall j :: 0 <= j < n ==> island[at + j] == Encode(code[j])
      invariant forall j :: 0 <= j < island.Length && (j < at || at + n <= j) ==> island[j] == old(island[j])
    {
      island[at + n] := Encode(code[n]);
    }
  }

  // A patched word: its index in the section, and its island's place in the pool.
  datatype Site = Site(i: nat, at: nat, len: nat)

  // A section of code at word address codeAt and a pool at poolAt.
  datatype Layout = Layout(codeAt: int, poolAt: int)

  // The displacement of the entry branch.
  function Entry(l: Layout, i: nat, at: nat): int {
    l.poolAt + at - (l.codeAt + i)
  }

  // The return address, relative to the island.
  function Ret(l: Layout, i: nat, at: nat): int {
    l.codeAt + i + 1 - (l.poolAt + at)
  }

  predicate InBranchRange(offset: int) {
    -0x200_0000 <= offset <= 0x1FF_FFFF
  }

  // The site's word is a B to its island, and the island is the right one.
  predicate SitePatched(l: Layout, s: Site, before: seq<U32>, after: seq<U32>, pool: seq<U32>) {
    && s.i < |before| == |after| && NeedsIsland(before[s.i])
    && InBranchRange(Entry(l, s.i, s.at))
    && after[s.i] == EncB(Entry(l, s.i, s.at))
    && s.at + s.len <= |pool|
    && var island := IslandFor(before[s.i], Ret(l, s.i, s.at)).value;
    && s.len == |island|
    && (forall i :: i in island ==> FieldsFit(i))
    && pool[s.at..s.at + s.len] == EncodeAll(island)
  }

  // Islands follow one another from `from` to `to`; sites ascend and stay below n.
  predicate Packed(sites: seq<Site>, from: nat, to: nat, n: nat) {
    if sites == [] then from == to
    else
      var s := sites[|sites| - 1];
      s.i < n && s.at + s.len == to && Packed(sites[..|sites| - 1], from, s.at, s.i)
  }

  predicate IsSite(sites: seq<Site>, i: nat) {
    exists s :: s in sites && s.i == i
  }

  // The first free word of the pool when the scan reaches word j.
  function Cursor(sites: seq<Site>, from: nat, j: nat): nat {
    if sites == [] then from
    else
      var s := sites[|sites| - 1];
      if s.i < j then s.at + s.len else Cursor(sites[..|sites| - 1], from, j)
  }

  lemma CursorGrows(sites: seq<Site>, from: nat, to: nat, n: nat, s: Site, j: nat)
    requires Packed(sites, from, to, n)
    ensures j >= n ==> Cursor(sites, from, j) == to
    ensures j <= s.i ==> Cursor(sites + [s], from, j) == Cursor(sites, from, j)
  {
    assert (sites + [s])[..|sites|] == sites;
  }

  // A word becomes a site exactly when it needs an island and the pool's
  // cursor is in branch range as the scan reaches it.
  predicate Chosen(l: Layout, sites: seq<Site>, from: nat, w: U32, i: nat) {
    NeedsIsland(w) && InBranchRange(Entry(l, i, Cursor(sites, from, i)))
  }

  lemma {:induction false} PackedBounds(sites: seq<Site>, from: nat, to: nat, n: nat, s: Site)
    requires Packed(sites, from, to, n) && s in sites
    ensures s.i < n && from <= s.at && s.at + s.len <= to
    decreases |sites|
  {
    var front, last := sites[..|sites| - 1], sites[|sites| - 1];
    PackedOrder(front, from, last.at, last.i);
    if s != last {
      assert s in front;
      PackedBounds(front, from, last.at, last.i, s);
    }
  }

  lemma {:induction false} PackedOrder(sites: seq<Site>, from: nat, to: nat, n: nat)
    requires Packed(sites, from, to, n)
    ensures from <= to
    decreases |sites|
  {
    if sites != [] {
      PackedOrder(sites[..|sites| - 1], from, sites[|sites| - 1].at, sites[|sites| - 1].i);
    }
  }

  // Different sites have different words and disjoint islands.
  lemma {:induction false} SitesDisjoint(sites: seq<Site>, from: nat, to: nat, n: nat, a: nat, b: nat)
    requires Packed(sites, from, to, n) && a < b < |sites|
    ensures sites[a].i < sites[b].i && sites[a].at + sites[a].len <= sites[b].at
    decreases |sites|
  {
    var front, last := sites[..|sites| - 1], sites[|sites| - 1];
    if b == |sites| - 1 {
      assert sites[a] in front;
      PackedBounds(front, from, last.at, last.i, sites[a]);
    } else {
      SitesDisjoint(front, from, last.at, last.i, a, b);
    }
  }

  // What the scan has done when it reaches word i.
  ghost predicate Scanned(l: Layout, before: seq<U32>, now: seq<U32>, pool0: seq<U32>, pool: seq<U32>,
                          from: nat, next: nat, sites: seq<Site>, i: nat)
  {
    && |now| == |before| && |pool| == |pool0| && from <= next <= |pool| && i <= |before|
    && Packed(sites, from, next, i)
    && (forall s :: s in sites ==> SitePatched(l, s, before, now, pool))
    && (forall j :: 0 <= j < |before| && !IsSite(sites, j) ==> now[j] == before[j])
    && pool[..from] == pool0[..from] && pool[next..] == pool0[next..]
    && (forall j :: 0 <= j < |before| ==> (IsSite(sites, j) <==> j < i && Chosen(l, sites, from, before[j], j)))
  }

  lemma PackedWiden(sites: seq<Site>, from: nat, to: nat, n: nat, n': nat)
    requires Packed(sites, from, to, n) && n <= n'
    ensures Packed(sites, from, to, n')
  {
  }

  lemma ScanSkip(l: Layout, before: seq<U32>, now: seq<U32>, pool0: seq<U32>, pool: seq<U32>,
                 from: nat, next: nat, sites: seq<Site>, i: nat)
    requires Scanned(l, before, now, pool0, pool, from, next, sites, i) && i < |before|
    requires !Chosen(l, sites, from, before[i], i)
    ensures Scanned(l, before, now, pool0, pool, from, next, sites, i + 1)
  {
    PackedWiden(sites, from, next, i, i + 1);
    hide Chosen, SitePatched, Packed;
  }

  // The pool and the code after one site.
  function WithIsland(pool: seq<U32>, next: nat, words: seq<U32>): seq<U32>
    requires next + |words| <= |pool|
  {
    pool[..next] + words + pool[next + |words|..]
  }

  // Later islands and branches leave a patched site as it is.
  lemma SiteKept(l: Layout, s: Site, before: seq<U32>, now: seq<U32>, pool: seq<U32>, next: nat, words: seq<U32>,
                 i: nat, w: U32)
    requires SitePatched(l, s, before, now, pool) && s.i < i < |now|
    requires s.at + s.len <= next && next + |words| <= |pool|
    ensures SitePatched(l, s, before, now[i := w], WithIsland(pool, next, words))
  {
    var pool' := WithIsland(pool, next, words);
    assert pool'[s.at..s.at + s.len] == pool[s.at..s.at + s.len];
  }

  lemma ChosenKept(l: Layout, sites: seq<Site>, from: nat, to: nat, s: Site, w: U32, j: nat)
    requires Packed(sites, from, to, s.i) && j <= s.i
    ensures Chosen(l, sites + [s], from, w, j) <==> Chosen(l, sites, from, w, j)
  {
    CursorGrows(sites, from, to, s.i, s, j);
  }

  lemma IsSiteGrows(sites: seq<Site>, s: Site, j: nat)
    ensures IsSite(sites + [s], j) <==> IsSite(sites, j) || j == s.i
  {
    assert s in sites + [s];
    assert forall q :: q in sites ==> q in sites + [s];
  }

  lemma PackedOneMore(sites: seq<Site>, from: nat, next: nat, s: Site)
    requires Packed(sites, from, next, s.i) && s.at == next
    ensures Packed(sites + [s], from, next + s.len, s.i + 1)
  {
    assert (sites + [s])[..|sites|] == sites;
  }

  lemma ScanSite(l: Layout, before: seq<U32>, now: seq<U32>, pool0: seq<U32>, pool: seq<U32>,
                 from: nat, next: nat, sites: seq<Site>, i: nat, island: seq<Instr>)
    requires Scanned(l, before, now, pool0, pool, from, next, sites, i) && i < |before|
    requires Chosen(l, sites, from, before[i], i)
    requires IslandFor(before[i], Ret(l, i, next)) == Some(island)
    requires (forall q :: q in island ==> FieldsFit(q)) && next + |island| <= |pool|
    ensures var s := Site(i, next, |island|);
            Scanned(l, before, now[i := EncB(Entry(l, i, next))], pool0, WithIsland(pool, next, EncodeAll(island)),
                    from, next + |island|, sites + [s], i + 1)
  {
    hide IslandFor, NeedsIsland, FieldsFit, Reserve, SitePatched, Packed, EncodeAll, EncB;
    var s, words := Site(i, next, |island|), EncodeAll(island);
    CursorGrows(sites, from, next, i, s, i);
    PackedOneMore(sites, from, next, s);
    AllPatched(l, before, now, pool, from, next, sites, s, island);
    ScanChoice(l, before, sites, from, next, s);
    hide Chosen;
    PoolFrame(pool0, pool, from, next, words);
    forall j | 0 <= j < |before| && !IsSite(sites + [s], j)
      ensures now[i := EncB(Entry(l, s.i, s.at))][j] == before[j]
    {
      IsSiteGrows(sites, s, j);
    }
  }

  lemma AllPatched(l: Layout, before: seq<U32>, now: seq<U32>, pool: seq<U32>,
                   from: nat, next: nat, sites: seq<Site>, s: Site, island: seq<Instr>)
    requires |now| == |before| && s.i < |before| && s.at == next && s.len == |island| && next + |island| <= |pool|
    requires Packed(sites, from, next, s.i)
    requires forall q :: q in sites ==> SitePatched(l, q, before, now, pool)
    requires IslandFor(before[s.i], Ret(l, s.i, next)) == Some(island) && forall q :: q in island ==> FieldsFit(q)
    requires InBranchRange(Entry(l, s.i, s.at))
    ensures forall q :: q in sites + [s] ==>
              SitePatched(l, q, before, now[s.i := EncB(Entry(l, s.i, s.at))], WithIsland(pool, next, EncodeAll(island)))
  {
    var words := EncodeAll(island);
    var (now', pool') := (now[s.i := EncB(Entry(l, s.i, s.at))], WithIsland(pool, next, words));
    assert pool'[next..next + |words|] == words;
    assert SitePatched(l, s, before, now', pool');
    hide SitePatched, EncodeAll;
    forall q | q in sites
      ensures SitePatched(l, q, before, now', pool')
    {
      PackedBounds(sites, from, next, s.i, q);
      SiteKept(l, q, before, now, pool, next, words, s.i, EncB(Entry(l, s.i, s.at)));
    }
  }

  lemma PoolFrame(pool0: seq<U32>, pool: seq<U32>, from: nat, next: nat, words: seq<U32>)
    requires |pool| == |pool0| && from <= next && next + |words| <= |pool|
    requires pool[..from] == pool0[..from] && pool[next..] == pool0[next..]
    ensures var pool' := WithIsland(pool, next, words);
            && |pool'| == |pool0| && pool'[..from] == pool0[..from]
            && pool'[next + |words|..] == pool0[next + |words|..]
  {
    var pool' := WithIsland(pool, next, words);
    assert pool'[next + |words|..] == pool[next..][|words|..];
    assert pool0[next + |words|..] == pool0[next..][|words|..];
    assert pool'[..from] == pool[..from];
  }

  lemma ScanChoice(l: Layout, before: seq<U32>, sites: seq<Site>, from: nat, to: nat, s: Site)
    requires Packed(sites, from, to, s.i) && s.i < |before|
    requires forall j :: 0 <= j < |before| ==> (IsSite(sites, j) <==> j < s.i && Chosen(l, sites, from, before[j], j))
    requires Chosen(l, sites, from, before[s.i], s.i)
    ensures forall j :: 0 <= j < |before| ==>
              (IsSite(sites + [s], j) <==> j < s.i + 1 && Chosen(l, sites + [s], from, before[j], j))
  {
    hide Chosen, IsSite;
    forall j | 0 <= j < |before|
      ensures IsSite(sites + [s], j) <==> j < s.i + 1 && Chosen(l, sites + [s], from, before[j], j)
    {
      IsSiteGrows(sites, s, j);
      if j <= s.i {
        ChosenKept(l, sites, from, to, s, before[j], j);
      }
    }
  }

  // Emit the island and put the branch to it in place of the instruction.
  method Divert(code: array<U32>, i: nat, pool: array<U32>, next: nat, l: Layout) returns (n: nat)
    requires i < code.Length && code != pool && NeedsIsland(code[i]) && next + Reserve(code[i]) <= pool.Length
    modifies code, pool
    ensures IslandFor(old(code[i]), Ret(l, i, next)).Some?
    ensures var island := IslandFor(old(code[i]), Ret(l, i, next)).value;
            && n == |island| <= Reserve(old(code[i])) && (forall q :: q in island ==> FieldsFit(q))
            && code[..] == old(code[..])[i := EncB(Entry(l, i, next))]
            && pool[..] == WithIsland(old(pool[..]), next, EncodeAll(island))
  {
    hide IslandFor, NeedsIsland, Reserve, FieldsFit;
    var ret := Ret(l, i, next);
    IslandWithinReserve(code[i], ret);
    var island := IslandFor(code[i], ret).value;
    Emit(pool, next, island);
    code[i] := EncB(Entry(l, i, next));
    n := |island|;
  }

  // isa_emul_patch. The sites say what was patched; `stopped` is the index at
  // which the pool ran out, or the number of words.
  method Patch(code: array<U32>, codeSize: nat, pool: array<U32>, cur: nat, end: nat, l: Layout)
    returns (next: nat, patched: nat, ghost sites: seq<Site>, ghost stopped: nat)
    requires codeSize / 4 <= code.Length && cur <= end <= pool.Length && code != pool
    modifies code, pool
    ensures Scanned(l, old(code[..]), code[..], old(pool[..]), pool[..], cur, next, sites, stopped)
    ensures patched == |sites| && next <= end
    ensures stopped <= codeSize / 4
    ensures stopped < codeSize / 4 ==> next + Reserve(old(code[stopped])) > end
    ensures end - cur >= EstimateWords(old(code[..codeSize / 4])) ==> stopped == codeSize / 4
  {
    hide *;
    var count := codeSize / 4;
    ghost var before, pool0 := code[..], pool[..];
    ghost var all := code[..count];
    next, patched, sites, stopped := cur, 0, [], 0;
    assert all[0..] == all;
    ScanStart(l, before, pool0, cur);
    var i := 0;
    while i < count
      invariant 0 <= i <= count && stopped == i
      invariant Scanned(l, before, code[..], pool0, pool[..], cur, next, sites, i)
      invariant patched == |sites| && next <= end
      invariant end - cur >= EstimateWords(all) ==> end - next >= EstimateWords(all[i..])
    {
      var w := code[i];
      ghost var now, pool1 := code[..], pool[..];
      AtCursor(l, before, now, pool0, pool1, cur, next, sites, i);
      EstimateStep(all, i);
      if NeedsIsland(w) {
        if next + Reserve(w) > end {
          break;
        }
        var offset := Entry(l, i, next);
        if !InBranchRange(offset) {
          ScanSkip(l, before, now, pool0, pool1, cur, next, sites, i);
        } else {
          var n := Divert(code, i, pool, next, l);
          ScanSite(l, before, now, pool0, pool1, cur, next, sites, i, IslandFor(w, Ret(l, i, next)).value);
          sites := sites + [Site(i, next, n)];
          next := next + n;
          patched := patched + 1;
        }
      } else {
        ScanSkip(l, before, now, pool0, pool1, cur, next, sites, i);
      }
      i := i + 1;
      stopped := i;
    }
  }

  lemma ScanStart(l: Layout, before: seq<U32>, pool0: seq<U32>, cur: nat)
    requires cur <= |pool0|
    ensures Scanned(l, before, before, pool0, pool0, cur, cur, [], 0)
  {
  }

  lemma EstimateStep(code: seq<U32>, i: nat)
    requires i < |code|
    ensures EstimateWords(code[i..]) == Reserve(code[i]) + EstimateWords(code[i + 1..])
  {
    assert code[i..][1..] == code[i + 1..];
  }

  lemma AtCursor(l: Layout, before: seq<U32>, now: seq<U32>, pool0: seq<U32>, pool: seq<U32>,
                 from: nat, next: nat, sites: seq<Site>, i: nat)
    requires Scanned(l, before, now, pool0, pool, from, next, sites, i) && i < |before|
    ensures |now| == |before| && now[i] == before[i] && next <= |pool|
    ensures Chosen(l, sites, from, before[i], i) <==>
            NeedsIsland(before[i]) && InBranchRange(Entry(l, i, next))
  {
    CursorGrows(sites, from, next, i, Site(i, 0, 0), i);
  }

  // --- What the patched text means ---

  // The patched word is a branch whose target is its own island.
  lemma EntryReaches(l: Layout, s: Site, before: seq<U32>, after: seq<U32>, pool: seq<U32>)
    requires SitePatched(l, s, before, after, pool)
    ensures Decode(after[s.i]).B? && l.codeAt + s.i + Decode(after[s.i]).offset == l.poolAt + s.at
  {
    BranchReaches(Entry(l, s.i, s.at));
    hide Decode, EncodeAll, IslandFor, NeedsIsland;
  }

  // Instructions whose offsets fit their fields decode to themselves.
  predicate Short(i: Instr) {
    match i
    case BCond(_, offset) => -0x4_0000 <= offset < 0x4_0000
    case CbnzW(_, offset) => -0x4_0000 <= offset < 0x4_0000
    case LdrLit(_, offset) => -0x4_0000 <= offset < 0x4_0000
    case B(_) => false
    case Bl(_) => false
    case Other(_) => false
    case _ => true
  }

  lemma ShortDecodes(i: Instr)
    requires FieldsFit(i) && Short(i)
    ensures Decode(Encode(i)) == i
  {
    MaskKeeps(i);
    hide *;
    DecodeEncode(i);
  }

  lemma MaskKeeps(i: Instr)
    requires Short(i)
    ensures Masked(i) == i && !i.Other?
  {
  }

  lemma PhaseShort(k: Plan, ret: int, ph: Phase)
    requires PhaseOk(k, ph) && ph != Return
    ensures Short(InstrOf(k, ret, ph))
  {
    match ph
    case Compute(j) => BodyOnlyComputes(k, j);
    case _ =>
  }

  // All of an island but its last word is position-independent; the last is
  // the branch back to the word after the site.
  lemma IslandShape(w: U32, ret: int)
    requires NeedsIsland(w)
    ensures var island := IslandFor(w, ret).value;
            && |island| > 0 && island[|island| - 1] == B(ret - (|island| - 1))
            && forall j :: 0 <= j < |island| - 1 ==> Short(island[j])
  {
    if DecodeLse(w).Some? {
      var k := PlanFor(DecodeLse(w).value);
      CodeAt(k, ret, 0);
      forall j: nat | j < |IslandCode(k, ret)| - 1
        ensures Short(IslandCode(k, ret)[j])
      {
        CodeAt(k, ret, j);
        PhaseAt(k, j);
        PhaseShort(k, ret, PhaseOf(k, j));
      }
    }
  }

  // The island in the pool decodes to the intended instructions; its return
  // branch does so exactly when the island starts no more than 2^25 + 2 - len
  // words above the site. Only the entry branch is range-checked, so a site
  // whose island is further up returns elsewhere.
  lemma IslandDecodes(l: Layout, s: Site, before: seq<U32>, after: seq<U32>, pool: seq<U32>)
    requires SitePatched(l, s, before, after, pool)
    ensures var island := IslandFor(before[s.i], Ret(l, s.i, s.at)).value;
            && (forall j :: 0 <= j < s.len - 1 ==> Decode(pool[s.at + j]) == island[j])
            && s.len >= 3
            && (Decode(pool[s.at + s.len - 1]) == B(l.codeAt + s.i + 1 - (l.poolAt + s.at + s.len - 1)) <==>
                Entry(l, s.i, s.at) <= 0x200_0002 - s.len)
  {
    hide Decode, IslandFor, NeedsIsland, EncodeAll, Short, FieldsFit, Reserve;
    var w, ret := before[s.i], Ret(l, s.i, s.at);
    IslandShape(w, ret);
    IslandWithinReserve(w, ret);
    WordsDecode(pool, s.at, IslandFor(w, ret).value, ret - (s.len - 1));
  }

  // The encoded words of a sequence that ends in a branch.
  lemma WordsDecode(pool: seq<U32>, at: nat, island: seq<Instr>, offset: int)
    requires |island| > 0 && island[|island| - 1] == B(offset) && at + |island| <= |pool|
    requires forall i :: i in island ==> FieldsFit(i)
    requires forall j :: 0 <= j < |island| - 1 ==> Short(island[j])
    requires pool[at..at + |island|] == EncodeAll(island)
    ensures forall j :: 0 <= j < |island| - 1 ==> Decode(pool[at + j]) == island[j]
    ensures Decode(pool[at + |island| - 1]) == B(offset) <==> InBranchRange(offset)
  {
    hide Decode, Encode, FieldsFit, Short;
    forall j | 0 <= j < |island|
      ensures pool[at + j] == Encode(island[j])
    {
      assert pool[at + j] == pool[at..at + |island|][j];
    }
    forall j | 0 <= j < |island| - 1
      ensures Decode(pool[at + j]) == island[j]
    {
      ShortDecodes(island[j]);
    }
    EncodesB(offset);
  }

  lemma EncodesB(offset: int)
    ensures Decode(Encode(B(offset))) == B(offset) <==> InBranchRange(offset)
  {
    hide Decode, EncB;
    BranchReaches(offset);
  }

  // BCAX V0, V1, V2, V3 at word 0, with its pool at the very end of the forward range.
  const FAR_WORD: U32 := 0xCE22_0C20
  const FAR: Layout := Layout(0, 0x1FF_FFFF)

  lemma FarWord()
    ensures DecodeLse(FAR_WORD) == None && DecodeBcax(FAR_WORD) == Some(Bcax(0, 1, 2, 3))
    ensures NeedsIsland(FAR_WORD) && |IslandFor(FAR_WORD, Ret(FAR, 0, 0)).value| == 5
  {
    UnpackPack(FAR_WORD, Fields(0xCE, 1, 2, 3, 1, 0));
  }

  // What the pass makes of it, whatever the pool held before: it patches the word, the
  // entry branch reaches the island, but the island's last word does not branch to the
  // word after the site.
  lemma ReturnCanMiss(pool0: seq<U32>) returns (after: seq<U32>, pool: seq<U32>, s: Site)
    requires |pool0| == 5
    ensures Scanned(FAR, [FAR_WORD], after, pool0, pool, 0, 5, [s], 1)
    ensures s == Site(0, 0, 5) && Decode(after[0]) == B(FAR.poolAt - FAR.codeAt)
    ensures Decode(pool[4]) != B(FAR.codeAt + 1 - (FAR.poolAt + 4))
  {
    hide Scanned, SitePatched, IslandFor, NeedsIsland, Decode, EncodeAll;
    FarWord();
    IslandWithinReserve(FAR_WORD, Ret(FAR, 0, 0));
    var island := IslandFor(FAR_WORD, Ret(FAR, 0, 0)).value;
    s := Site(0, 0, 5);
    ScanStart(FAR, [FAR_WORD], pool0, 0);
    ScanSite(FAR, [FAR_WORD], [FAR_WORD], pool0, pool0, 0, 0, [], 0, island);
    after, pool := [FAR_WORD][0 := EncB(Entry(FAR, 0, 0))], WithIsland(pool0, 0, EncodeAll(island));
    assert [] + [s] == [s];
    OnlySite(FAR, [FAR_WORD], after, pool0, pool, s);
    IslandDecodes(FAR, s, [FAR_WORD], after, pool);
    BranchReaches(0x1FF_FFFF);
  }

  lemma OnlySite(l: Layout, before: seq<U32>, now: seq<U32>, pool0: seq<U32>, pool: seq<U32>, s: Site)
    requires Scanned(l, before, now, pool0, pool, 0, 5, [s], 1)
    ensures SitePatched(l, s, before, now, pool)
  {
    assert s in [s];
  }

  // A branch is never taken for an LSE or BCAX instruction.
  lemma BranchNeedsNoIsland(offset: int)
    ensures !NeedsIsland(EncB(offset))
  {
    var low := offset % 0x400_0000;
    DivModUnique(EncB(offset), 0x100_0000, 0x14 + low / 0x100_0000, low % 0x100_0000);
  }

  // When every word that needed an island got one, a second pass finds nothing.
  lemma SecondPassIdle(l: Layout, before: seq<U32>, now: seq<U32>, pool0: seq<U32>, pool: seq<U32>, next: nat,
                       from: nat, sites: seq<Site>, n: nat,
                       l': Layout, after: seq<U32>, pool': seq<U32>, next': nat, sites': seq<Site>, n': nat)
    requires Scanned(l, before, now, pool0, pool, from, next, sites, n)
    requires forall i :: 0 <= i < n && NeedsIsland(before[i]) ==> IsSite(sites, i)
    requires Scanned(l', now, after, pool, pool', next, next', sites', n') && n' <= n
    ensures sites' == [] && after == now && pool' == pool
  {
    hide SitePatched, Packed, NeedsIsland;
    forall i | 0 <= i < n
      ensures !NeedsIsland(now[i])
    {
      if IsSite(sites, i) {
        var s :| s in sites && s.i == i;
        assert SitePatched(l, s, before, now, pool);
        SiteIsBranch(l, s, before, now, pool);
        BranchNeedsNoIsland(Entry(l, s.i, s.at));
      }
    }
    if sites' != [] {
      assert IsSite(sites', sites'[0].i);
      assert SitePatched(l', sites'[0], now, after, pool');
      SiteIsBranch(l', sites'[0], now, after, pool');
      assert false;
    }
    NoSites(next, next', n');
    assert pool' == pool'[..next] + pool'[next..];
    assert pool == pool[..next] + pool[next..];
  }

  lemma SiteIsBranch(l: Layout, s: Site, before: seq<U32>, after: seq<U32>, pool: seq<U32>)
    requires SitePatched(l, s, before, after, pool)
    ensures s.i < |before| == |after| && NeedsIsland(before[s.i]) && after[s.i] == EncB(Entry(l, s.i, s.at))
  {
  }

  lemma NoSites(from: nat, to: nat, n: nat)
    ensures Packed([], from, to, n) ==> from == to
  {
  }
}
