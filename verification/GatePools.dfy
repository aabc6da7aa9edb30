// syscall_gate.c: the island pools within branch range of the text, and the
// patching of every `svc #0x80`. Addresses are in bytes; memory is by word.
module GatePools {
  import opened Bits
  import opened A64
  import opened SyscallIsland

  const ISLAND_BYTES: int := 4 * ISLAND_WORDS
  const POOL_SIZE: int := 256 * 1024
  const MAX_POOLS: int := 256
  const SEARCH_STEP: int := 1024 * 1024
  const RANGE: int := 0x800_0000  // 1 << 27

  datatype Range = Range(base: int, size: int)

  datatype Pool = Pool(base: int, size: int, cur: int) {
    function End(): int { base + size / 4 * 4 }
  }

  // A patched svc: its address, and its island as the k-th of a pool.
  datatype Site = Site(instr: int, pool: nat, k: nat)

  predicate Apart(a: Range, b: Range) {
    a.base + a.size <= b.base || b.base + b.size <= a.base
  }

  predicate Within(a: Range, b: Range) {
    b.base <= a.base && a.base + a.size <= b.base + b.size
  }

  function AlignDown(v: int, page: int): int
    requires page > 0
  {
    v - v % page
  }

  function AlignUp(v: int, page: int): int
    requires page > 0
  {
    AlignDown(v + page - 1, page)
  }

  lemma Aligned(v: int, page: int)
    requires page > 0 && page % 4 == 0
    ensures AlignDown(v, page) % page == 0 && AlignDown(v, page) % 4 == 0
    ensures v - page < AlignDown(v, page) <= v
    ensures AlignUp(v, page) % 4 == 0 && v <= AlignUp(v, page) < v + page
  {
    MultipleOfFour(v, page);
    MultipleOfFour(v + page - 1, page);
  }

  lemma AlignedUp(v: int, page: int)
    requires page > 0 && page % 4 == 0
    ensures AlignUp(v, page) % page == 0
  {
    MultipleOfFour(v + page - 1, page);
  }

  lemma MultipleOfFour(v: int, page: int)
    requires page > 0 && page % 4 == 0
    ensures (v - v % page) % page == 0 && (v - v % page) % 4 == 0
  {
    var q := v / page;
    assert v - v % page == q * page;
    DivModUnique(q * page, page, q, 0);
    assert page == 4 * (page / 4);
    assert q * page == (q * (page / 4)) * 4;
  }

  // Words written in order from address a.
  function WriteWords(m: map<int, U32>, a: int, ws: seq<U32>): map<int, U32> {
    if ws == [] then m else WriteWords(m, a, ws[..|ws| - 1])[a + 4 * (|ws| - 1) := ws[|ws| - 1]]
  }

  lemma {:induction false} Written(m: map<int, U32>, a: int, ws: seq<U32>, b: int)
    ensures var m' := WriteWords(m, a, ws);
            if a <= b < a + 4 * |ws| && (b - a) % 4 == 0
            then b in m' && m'[b] == ws[(b - a) / 4]
            else (b in m' <==> b in m) && (b in m ==> m'[b] == m[b])
    decreases |ws|
  {
    if ws != [] {
      Written(m, a, ws[..|ws| - 1], b);
    }
  }

  function IslandAt(pools: seq<Pool>, s: Site): int
    requires s.pool < |pools|
  {
    pools[s.pool].base + ISLAND_BYTES * s.k
  }

  // --- State ---

  datatype State = State(pools: seq<Pool>, mem: map<int, U32>, ranges: seq<Range>, sites: seq<Site>)

  // The image: its text section, all of memory before patching, and the dispatcher.
  datatype Image = Image(text: Range, before: map<int, U32>, dispatcher: U64)

  predicate PoolOk(p: Pool) {
    && p.base % 4 == 0 && ISLAND_BYTES <= p.size
    && p.base <= p.cur <= p.End() && (p.cur - p.base) % ISLAND_BYTES == 0
  }

  function Extent(p: Pool): Range {
    Range(p.base, p.size)
  }

  predicate Covered(r: Range, ranges: seq<Range>) {
    exists q :: q in ranges && Within(r, q)
  }

  predicate PoolsOk(img: Image, s: State) {
    && (forall p :: p in s.pools ==> PoolOk(p) && Apart(Extent(p), img.text) && Covered(Extent(p), s.ranges))
    && (forall i, j :: 0 <= i < j < |s.pools| ==> Apart(Extent(s.pools[i]), Extent(s.pools[j])))
    && Covered(img.text, s.ranges)
  }

  // The site's word is a branch to its island, and the island is emitted.
  predicate SiteOk(img: Image, s: State, t: Site) {
    && img.text.base <= t.instr && t.instr + 4 <= img.text.base + img.text.size
    && t.pool < |s.pools| && ISLAND_BYTES * (t.k + 1) <= s.pools[t.pool].cur - s.pools[t.pool].base
    && var island := IslandAt(s.pools, t);
    && BranchInRange(island - t.instr)
    && t.instr in s.mem && s.mem[t.instr] == EncB((island - t.instr) / 4)
    && 0 <= t.instr + 4 < TWO64
    && forall j :: 0 <= j < ISLAND_WORDS ==>
         island + 4 * j in s.mem && s.mem[island + 4 * j] == IslandWords(Literals(img.dispatcher, t.instr + 4))[j]
  }

  predicate IsSite(sites: seq<Site>, a: int) {
    exists t :: t in sites && t.instr == a
  }

  predicate SitesOk(img: Image, s: State) {
    && (forall t :: t in s.sites ==> SiteOk(img, s, t))
    && (forall i, j :: 0 <= i < j < |s.sites| ==>
          s.sites[i].instr != s.sites[j].instr && (s.sites[i].pool, s.sites[i].k) != (s.sites[j].pool, s.sites[j].k))
  }

  // Text words that are no site are as they were.
  predicate TextOk(img: Image, s: State) {
    forall a :: img.text.base <= a < img.text.base + img.text.size && !IsSite(s.sites, a) ==>
      (a in s.mem <==> a in img.before) && (a in s.mem ==> s.mem[a] == img.before[a])
  }

  // A word of the site's island.
  predicate InIsland(pools: seq<Pool>, t: Site, a: int) {
    && t.pool < |pools|
    && IslandAt(pools, t) <= a < IslandAt(pools, t) + ISLAND_BYTES && (a - IslandAt(pools, t)) % 4 == 0
  }

  predicate Touched(s: State, a: int) {
    exists t :: t in s.sites && (t.instr == a || InIsland(s.pools, t, a))
  }

  // Every word of memory that is neither a site nor in a site's island is as it was.
  ghost predicate FrameOk(img: Image, s: State) {
    forall a :: !Touched(s, a) ==> (a in s.mem <==> a in img.before) && (a in s.mem ==> s.mem[a] == img.before[a])
  }

  ghost predicate Ok(img: Image, s: State) {
    PoolsOk(img, s) && SitesOk(img, s) && TextOk(img, s) && FrameOk(img, s)
  }

  // --- What each step keeps ---

  function WithRange(s: State, r: Range): State {
    s.(ranges := s.ranges + [r])
  }

  lemma CoveredGrows(q: Range, ranges: seq<Range>, r: Range)
    requires Covered(q, ranges)
    ensures Covered(q, ranges + [r])
  {
    var c :| c in ranges && Within(q, c);
    assert c in ranges + [r];
  }

  // Sites depend on the pools they lie in and on memory, and nothing else.
  lemma SitesCarry(img: Image, s: State, s': State)
    requires SitesOk(img, s) && s'.sites == s.sites && s'.mem == s.mem && s.pools <= s'.pools
    ensures SitesOk(img, s')
  {
    hide IslandWords, EncB;
    forall t | t in s'.sites
      ensures SiteOk(img, s', t)
    {
      assert SiteOk(img, s, t);
    }
  }

  lemma KeepRange(img: Image, s: State, r: Range)
    requires Ok(img, s)
    ensures Ok(img, WithRange(s, r))
  {
    SitesCarry(img, s, WithRange(s, r));
    hide SitesOk, TextOk, FrameOk, Covered, PoolOk, Apart;
    CoveredGrows(img.text, s.ranges, r);
    forall p | p in s.pools
      ensures Covered(Extent(p), s.ranges + [r])
    {
      CoveredGrows(Extent(p), s.ranges, r);
    }
    TextCarry(img, s, WithRange(s, r));
  }

  lemma TextCarry(img: Image, s: State, s': State)
    requires TextOk(img, s) && FrameOk(img, s)
    requires s'.sites == s.sites && s'.mem == s.mem && s.pools <= s'.pools
    ensures TextOk(img, s') && FrameOk(img, s')
  {
    forall a | Touched(s, a)
      ensures Touched(s', a)
    {
      StillTouched(s, s', a);
    }
  }

  // Sites and the starts of pools never change.
  lemma StillTouched(s: State, s': State, a: int)
    requires s.sites <= s'.sites && |s.pools| <= |s'.pools|
    requires forall i :: 0 <= i < |s.pools| ==> s'.pools[i].base == s.pools[i].base
    requires Touched(s, a)
    ensures Touched(s', a)
  {
    var t :| t in s.sites && (t.instr == a || InIsland(s.pools, t, a));
    assert t in s'.sites && (t.instr == a || InIsland(s'.pools, t, a));
  }

  function WithPool(s: State, p: Pool): State {
    s.(pools := s.pools + [p])
  }

  // A mapping that is apart from everything mapped before it is a fresh pool.
  lemma KeepPool(img: Image, s: State, p: Pool)
    requires Ok(img, s) && PoolOk(p)
    requires forall q :: q in s.ranges ==> Apart(Extent(p), q)
    ensures Ok(img, WithPool(WithRange(s, Extent(p)), p))
  {
    var s1 := WithRange(s, Extent(p));
    KeepRange(img, s, Extent(p));
    SitesCarry(img, s1, WithPool(s1, p));
    TextCarry(img, s1, WithPool(s1, p));
    assert Extent(p) in s1.ranges && Within(Extent(p), Extent(p));
    assert Covered(Extent(p), s1.ranges);
    ApartFromCovered(Extent(p), img.text, s.ranges);
    forall q | q in s.pools
      ensures Apart(Extent(q), Extent(p))
    {
      ApartFromCovered(Extent(p), Extent(q), s.ranges);
    }
    hide SitesOk, TextOk, FrameOk, Covered, PoolOk;
  }

  lemma ApartFromCovered(r: Range, q: Range, ranges: seq<Range>)
    requires (forall c :: c in ranges ==> Apart(r, c)) && Covered(q, ranges)
    ensures Apart(r, q)
  {
    var c :| c in ranges && Within(q, c);
  }

  function SiteOf(s: State, idx: nat, instr: int): Site
    requires idx < |s.pools| && PoolOk(s.pools[idx])
  {
    Site(instr, idx, (s.pools[idx].cur - s.pools[idx].base) / ISLAND_BYTES)
  }

  // patch_instruction once it has its pool.
  function Patched(img: Image, s: State, idx: nat, instr: int): State
    requires idx < |s.pools| && PoolOk(s.pools[idx]) && 0 <= instr + 4 < TWO64
  {
    var p := s.pools[idx];
    var words := IslandWords(Literals(img.dispatcher, instr + 4));
    State(s.pools[idx := p.(cur := p.cur + ISLAND_BYTES)],
          WriteWords(s.mem, p.cur, words)[instr := EncB((p.cur - instr) / 4)],
          s.ranges, s.sites + [SiteOf(s, idx, instr)])
  }

  // The pool has room for an island and the island is in reach of the site.
  predicate Suitable(p: Pool, instr: int) {
    p.cur + ISLAND_BYTES <= p.End() && BranchInRange(p.cur - instr)
  }

  // The first pool that serves the site, from the i-th on, or the number of pools.
  function FirstSuitable(pools: seq<Pool>, instr: int, i: nat): (k: nat)
    requires i <= |pools|
    ensures i <= k <= |pools| && (k < |pools| ==> Suitable(pools[k], instr))
    ensures forall j :: i <= j < k ==> !Suitable(pools[j], instr)
    decreases |pools| - i
  {
    if i == |pools| || Suitable(pools[i], instr) then i else FirstSuitable(pools, instr, i + 1)
  }

  lemma FirstIs(pools: seq<Pool>, instr: int, k: nat)
    requires k <= |pools| && (k < |pools| ==> Suitable(pools[k], instr))
    requires forall j :: 0 <= j < k ==> !Suitable(pools[j], instr)
    ensures FirstSuitable(pools, instr, 0) == k
  {
    hide Suitable;
  }

  predicate InText(img: Image, instr: int) {
    && img.text.base <= instr && instr + 4 <= img.text.base + img.text.size
    && 0 <= instr + 4 < TWO64 && instr % 4 == 0
  }

  lemma CursorIs(p: Pool)
    requires PoolOk(p)
    ensures p.base + ISLAND_BYTES * ((p.cur - p.base) / ISLAND_BYTES) == p.cur
    ensures p.cur % 4 == 0
  {
  }

  // Two addresses in different islands of the pools are different.
  lemma IslandsApart(img: Image, s: State, a: Site, b: Site, i: nat, j: nat)
    requires PoolsOk(img, s) && a.pool < |s.pools| && b.pool < |s.pools|
    requires ISLAND_BYTES * a.k + ISLAND_BYTES <= s.pools[a.pool].size
    requires ISLAND_BYTES * b.k + ISLAND_BYTES <= s.pools[b.pool].size
    requires (a.pool, a.k) != (b.pool, b.k) && i < ISLAND_WORDS && j < ISLAND_WORDS
    ensures IslandAt(s.pools, a) + 4 * i != IslandAt(s.pools, b) + 4 * j
  {
    if a.pool != b.pool {
      var (lo, hi) := if a.pool < b.pool then (a.pool, b.pool) else (b.pool, a.pool);
      assert Apart(Extent(s.pools[lo]), Extent(s.pools[hi]));
    } else {
      assert a.k != b.k;
    }
  }

  // A pool lies apart from the text.
  lemma PoolMissesText(img: Image, s: State, idx: nat, a: int)
    requires PoolsOk(img, s) && idx < |s.pools|
    requires s.pools[idx].base <= a < s.pools[idx].base + s.pools[idx].size
    ensures a < img.text.base || img.text.base + img.text.size <= a
  {
    assert s.pools[idx] in s.pools;
  }

  ghost predicate Patching(img: Image, s: State, idx: nat, instr: int) {
    && Ok(img, s) && idx < |s.pools| && PoolOk(s.pools[idx]) && Suitable(s.pools[idx], instr)
    && InText(img, instr) && !IsSite(s.sites, instr)
  }

  // A suitable pool can take the site, and a fresh one numbers it 0.
  lemma CanPatch(img: Image, s: State, idx: nat, instr: int)
    requires Ok(img, s) && idx < |s.pools| && Suitable(s.pools[idx], instr) && InText(img, instr) && !IsSite(s.sites, instr)
    ensures Patching(img, s, idx, instr)
    ensures s.pools[idx].cur == s.pools[idx].base ==> SiteOf(s, idx, instr) == Site(instr, idx, 0)
  {
    hide SitesOk, TextOk, FrameOk, Suitable;
    assert s.pools[idx] in s.pools;
  }

  // Memory after patching: the branch, the island's words, and nothing else.
  lemma MemAfter(img: Image, s: State, idx: nat, instr: int, b: int)
    requires Patching(img, s, idx, instr)
    ensures var (m, m', cur) := (s.mem, Patched(img, s, idx, instr).mem, s.pools[idx].cur);
            if b == instr then b in m' && m'[b] == EncB((cur - instr) / 4)
            else if cur <= b < cur + ISLAND_BYTES && (b - cur) % 4 == 0
            then b in m' && m'[b] == IslandWords(Literals(img.dispatcher, instr + 4))[(b - cur) / 4]
            else (b in m' <==> b in m) && (b in m ==> m'[b] == m[b])
  {
    hide IslandWords, EncB, Ok;
    Written(s.mem, s.pools[idx].cur, IslandWords(Literals(img.dispatcher, instr + 4)), b);
    WordsLength(Literals(img.dispatcher, instr + 4));
  }

  lemma WordsLength(l: Literals)
    ensures |IslandWords(l)| == ISLAND_WORDS
  {
  }

  lemma OldSiteKept(img: Image, s: State, idx: nat, instr: int, t: Site)
    requires Patching(img, s, idx, instr) && t in s.sites && SiteOk(img, s, t)
    ensures SiteOk(img, Patched(img, s, idx, instr), t)
    ensures t.instr != instr
    ensures (t.pool, t.k) != (idx, (s.pools[idx].cur - s.pools[idx].base) / ISLAND_BYTES)
  {
    hide IslandWords, EncB, WriteWords, TextOk, FrameOk, SitesOk, Decode;
    var (s', p) := (Patched(img, s, idx, instr), s.pools[idx]);
    var island := IslandAt(s.pools, t);
    CursorIs(p);
    assert IsSite(s.sites, t.instr);
    MemAfter(img, s, idx, instr, t.instr);
    PoolMissesTextAt(img, s, idx, t.instr);
    forall j | 0 <= j < ISLAND_WORDS
      ensures island + 4 * j in s'.mem && s'.mem[island + 4 * j] == s.mem[island + 4 * j]
    {
      SiteInPool(img, s, t);
      PoolMissesText(img, s, t.pool, island + 4 * j);
      MemAfter(img, s, idx, instr, island + 4 * j);
    }
  }

  lemma PoolMissesTextAt(img: Image, s: State, idx: nat, a: int)
    requires PoolsOk(img, s) && idx < |s.pools| && s.pools[idx].cur + ISLAND_BYTES <= s.pools[idx].End()
    requires img.text.base <= a < img.text.base + img.text.size
    ensures a < s.pools[idx].cur || s.pools[idx].cur + ISLAND_BYTES <= a
  {
    assert s.pools[idx] in s.pools;
  }

  lemma SiteInPool(img: Image, s: State, t: Site)
    requires PoolsOk(img, s) && SiteOk(img, s, t)
    ensures s.pools[t.pool].base <= IslandAt(s.pools, t)
    ensures IslandAt(s.pools, t) + ISLAND_BYTES <= s.pools[t.pool].cur <= s.pools[t.pool].base + s.pools[t.pool].size
  {
    assert s.pools[t.pool] in s.pools;
  }

  lemma NewSiteOk(img: Image, s: State, idx: nat, instr: int)
    requires Patching(img, s, idx, instr)
    ensures SiteOk(img, Patched(img, s, idx, instr), SiteOf(s, idx, instr))
  {
    hide IslandWords, EncB, WriteWords, TextOk, FrameOk, SitesOk, Decode;
    var (s', p) := (Patched(img, s, idx, instr), s.pools[idx]);
    CursorIs(p);
    PoolMissesTextAt(img, s, idx, instr);
    MemAfter(img, s, idx, instr, instr);
    WordsLength(Literals(img.dispatcher, instr + 4));
    forall j | 0 <= j < ISLAND_WORDS
      ensures p.cur + 4 * j in s'.mem
      ensures s'.mem[p.cur + 4 * j] == IslandWords(Literals(img.dispatcher, instr + 4))[j]
    {
      MemAfter(img, s, idx, instr, p.cur + 4 * j);
    }
  }

  lemma TextKept(img: Image, s: State, idx: nat, instr: int)
    requires Patching(img, s, idx, instr)
    ensures TextOk(img, Patched(img, s, idx, instr))
  {
    hide IslandWords, EncB, WriteWords, SitesOk, FrameOk, Decode;
    var s' := Patched(img, s, idx, instr);
    forall a | img.text.base <= a < img.text.base + img.text.size && !IsSite(s'.sites, a)
      ensures (a in s'.mem <==> a in img.before) && (a in s'.mem ==> s'.mem[a] == img.before[a])
    {
      NotSiteBefore(s.sites, SiteOf(s, idx, instr), a);
      MemAfter(img, s, idx, instr, a);
      PoolMissesTextAt(img, s, idx, a);
    }
  }

  lemma FrameKept(img: Image, s: State, idx: nat, instr: int)
    requires Patching(img, s, idx, instr)
    ensures FrameOk(img, Patched(img, s, idx, instr))
  {
    hide IslandWords, EncB, WriteWords, SitesOk, TextOk, Decode, PoolsOk;
    var s' := Patched(img, s, idx, instr);
    forall a | !Touched(s', a)
      ensures (a in s'.mem <==> a in img.before) && (a in s'.mem ==> s'.mem[a] == img.before[a])
    {
      UntouchedBefore(img, s, idx, instr, a);
      MemAfter(img, s, idx, instr, a);
    }
  }

  lemma UntouchedBefore(img: Image, s: State, idx: nat, instr: int, a: int)
    requires Patching(img, s, idx, instr) && !Touched(Patched(img, s, idx, instr), a)
    ensures !Touched(s, a) && a != instr
    ensures !(s.pools[idx].cur <= a < s.pools[idx].cur + ISLAND_BYTES && (a - s.pools[idx].cur) % 4 == 0)
  {
    hide IslandWords, EncB, WriteWords, SitesOk, TextOk, FrameOk, Decode, PoolsOk, Suitable;
    var (s', new_) := (Patched(img, s, idx, instr), SiteOf(s, idx, instr));
    CursorIs(s.pools[idx]);
    assert new_ in s'.sites && IslandAt(s'.pools, new_) == s.pools[idx].cur;
    if Touched(s, a) {
      StillTouched(s, s', a);
    }
  }

  lemma NotSiteBefore(sites: seq<Site>, t: Site, a: int)
    requires !IsSite(sites + [t], a)
    ensures !IsSite(sites, a) && a != t.instr
  {
    assert t in sites + [t];
    assert forall q :: q in sites ==> q in sites + [t];
  }

  lemma PoolsKept(img: Image, s: State, idx: nat, instr: int)
    requires Patching(img, s, idx, instr)
    ensures PoolsOk(img, Patched(img, s, idx, instr))
  {
    hide IslandWords, EncB, WriteWords, SitesOk, TextOk, FrameOk, Decode, Covered;
    var (pools, pools') := (s.pools, Patched(img, s, idx, instr).pools);
    forall p | p in pools'
      ensures PoolOk(p) && Apart(Extent(p), img.text) && Covered(Extent(p), s.ranges)
    {
      var i :| 0 <= i < |pools'| && pools'[i] == p;
      assert pools[i] in pools && Extent(p) == Extent(pools[i]);
    }
    forall i, j | 0 <= i < j < |pools'|
      ensures Apart(Extent(pools'[i]), Extent(pools'[j]))
    {
      assert Extent(pools'[i]) == Extent(pools[i]) && Extent(pools'[j]) == Extent(pools[j]);
    }
  }

  lemma SitesKept(img: Image, s: State, idx: nat, instr: int)
    requires Patching(img, s, idx, instr)
    ensures SitesOk(img, Patched(img, s, idx, instr))
  {
    hide SiteOk, PoolsOk, TextOk, FrameOk, IslandWords, EncB, WriteWords, Suitable;
    NewSiteOk(img, s, idx, instr);
    forall t | t in s.sites
      ensures SiteOk(img, Patched(img, s, idx, instr), t) && t.instr != instr
      ensures (t.pool, t.k) != (idx, (s.pools[idx].cur - s.pools[idx].base) / ISLAND_BYTES)
    {
      OldSiteKept(img, s, idx, instr, t);
    }
  }

  lemma KeepPatched(img: Image, s: State, idx: nat, instr: int)
    requires Patching(img, s, idx, instr)
    ensures Ok(img, Patched(img, s, idx, instr))
  {
    hide Patched, PoolsOk, SitesOk, TextOk, FrameOk;
    PoolsKept(img, s, idx, instr);
    SitesKept(img, s, idx, instr);
    TextKept(img, s, idx, instr);
    FrameKept(img, s, idx, instr);
  }

  // A text word that is no site yet.
  lemma TextWord(img: Image, s: State, a: int)
    requires Ok(img, s) && img.text.base <= a < img.text.base + img.text.size && !IsSite(s.sites, a)
    requires a in img.before
    ensures a in s.mem && s.mem[a] == img.before[a]
  {
  }

  // --- Reach of a fresh pool ---

  // A pool whose start is at most 2^27 bytes below or less than that above the site.
  predicate Near(address: int, instr: int) {
    address % 4 == 0 && -RANGE <= address - instr < RANGE
  }

  lemma NearIsSuitable(address: int, size: int, instr: int)
    requires Near(address, instr) && instr % 4 == 0 && ISLAND_BYTES <= size
    ensures Suitable(Pool(address, size, address), instr)
  {
  }

  function LowStart(instr: int, size: int, page: int): int
    requires page > 0
  {
    AlignDown(if instr > size then instr - size else page, page)
  }

  function LowEnd(instr: int, page: int): int
    requires page > 0
  {
    if instr > RANGE then AlignUp(instr - RANGE, page) else page
  }

  lemma AlignedEnds(instr: int, size: int, page: int)
    requires 4 <= page && page % 4 == 0
    ensures LowStart(instr, size, page) % 4 == 0 && LowEnd(instr, page) % 4 == 0
  {
    Aligned(if instr > size then instr - size else page, page);
    Aligned(instr - RANGE, page);
  }

  // Every address the downward search tries, and the last one, is near.
  lemma BelowIsNear(instr: int, size: int, page: int, address: int)
    requires instr >= 0 && ISLAND_BYTES <= size <= RANGE && 4 <= page <= 0x400_0000 && page % 4 == 0
    requires address % 4 == 0
    requires LowEnd(instr, page) <= address <= LowStart(instr, size, page) || address == LowEnd(instr, page)
    ensures Near(address, instr)
  {
    Aligned(if instr > size then instr - size else page, page);
    Aligned(instr - RANGE, page);
  }

  function HighStart(instr: int, page: int): int
    requires page > 0
  {
    AlignUp(instr + page, page)
  }

  function HighEnd(instr: int, size: int, page: int): int
    requires page > 0
  {
    AlignDown(instr + RANGE - size, page)
  }

  lemma AlignedHighEnds(instr: int, size: int, page: int)
    requires 4 <= page && page % 4 == 0
    ensures HighStart(instr, page) % 4 == 0 && HighEnd(instr, size, page) % 4 == 0
  {
    Aligned(instr + page, page);
    Aligned(instr + RANGE - size, page);
  }

  // So is every address of the upward search.
  lemma AboveIsNear(instr: int, size: int, page: int, address: int)
    requires instr >= 0 && ISLAND_BYTES <= size <= RANGE && 4 <= page <= 0x400_0000 && page % 4 == 0
    requires address % 4 == 0
    requires HighStart(instr, page) <= address <= HighEnd(instr, size, page) || address == HighEnd(instr, size, page)
    ensures Near(address, instr)
  {
    Aligned(instr + page, page);
    Aligned(instr + RANGE - size, page);
  }

  // --- What the kernel is asked for ---

  // A mapping requested at a fixed address, and the answer.
  datatype Ask = Ask(address: int, size: int, granted: bool)

  // Downwards in steps of 1 MB as far as the reach goes, and its end.
  function Below(instr: int, size: int, page: int): seq<int>
    requires page > 0
  {
    var (start, minimum) := (LowStart(instr, size, page), LowEnd(instr, page));
    seq(if start < minimum then 0 else (start - minimum) / SEARCH_STEP + 1, k => start - SEARCH_STEP * k) + [minimum]
  }

  // Upwards likewise.
  function Above(instr: int, size: int, page: int): seq<int>
    requires page > 0
  {
    var (start, maximum) := (HighStart(instr, page), HighEnd(instr, size, page));
    seq(if maximum < start then 0 else (maximum - start) / SEARCH_STEP + 1, k => start + SEARCH_STEP * k) + [maximum]
  }

  function Refusals(cs: seq<int>, size: int): seq<Ask> {
    seq(|cs|, i requires 0 <= i < |cs| => Ask(cs[i], size, false))
  }

  // Asked for the first n + 1 of cs in turn, and only the last was granted.
  ghost predicate GrantedAt(asks: seq<Ask>, cs: seq<int>, size: int, n: nat) {
    n < |cs| && asks == Refusals(cs[..n], size) + [Ask(cs[n], size, true)]
  }

  lemma OneMore(cs: seq<int>, size: int, n: nat)
    requires n < |cs|
    ensures Refusals(cs[..n], size) + [Ask(cs[n], size, false)] == Refusals(cs[..n + 1], size)
  {
  }

  lemma AllRefused(cs: seq<int>, size: int)
    ensures cs[..|cs|] == cs && Refusals(cs[..0], size) == []
  {
  }

  // The outcome of a search: every address refused, or one granted and registered unless
  // the table of pools is full.
  ghost predicate Searched(before: seq<Ask>, after: seq<Ask>, cs: seq<int>, size: int, idx: int, pools: nat) {
    && |before| <= |after| && after[..|before|] == before
    && var asks := after[|before|..];
    && (idx >= 0 ==> exists n :: GrantedAt(asks, cs, size, n))
    && (idx < 0 ==> asks == Refusals(cs, size) || (pools >= MAX_POOLS && exists n :: GrantedAt(asks, cs, size, n)))
  }

  lemma SearchGranted(before: seq<Ask>, after: seq<Ask>, cs: seq<int>, size: int, n: nat, idx: int, pools: nat)
    requires n < |cs| && after == before + Refusals(cs[..n], size) + [Ask(cs[n], size, true)]
    requires idx < 0 ==> pools >= MAX_POOLS
    ensures Searched(before, after, cs, size, idx, pools)
  {
    hide Refusals;
    var asks := Refusals(cs[..n], size) + [Ask(cs[n], size, true)];
    assert after == before + asks;
    assert after[|before|..] == asks;
    assert GrantedAt(asks, cs, size, n);
  }

  lemma SearchRefused(before: seq<Ask>, after: seq<Ask>, cs: seq<int>, size: int, idx: int, pools: nat)
    requires cs != [] && idx < 0
    requires after == before + Refusals(cs[..|cs| - 1], size) + [Ask(cs[|cs| - 1], size, false)]
    ensures Searched(before, after, cs, size, idx, pools)
  {
    OneMore(cs, size, |cs| - 1);
    AllRefused(cs, size);
    hide Refusals;
    assert after == before + Refusals(cs, size);
  }

  lemma BelowSteps(instr: int, size: int, page: int, n: nat)
    requires page > 0
    ensures var (start, minimum, cs) := (LowStart(instr, size, page), LowEnd(instr, page), Below(instr, size, page));
            && cs != [] && cs[|cs| - 1] == minimum
            && (start - SEARCH_STEP * n >= minimum ==> n < |cs| - 1 && cs[n] == start - SEARCH_STEP * n)
            && (start - SEARCH_STEP * n < minimum && (n == 0 || start - SEARCH_STEP * (n - 1) >= minimum) ==> n == |cs| - 1)
  {
    hide LowStart, LowEnd;
  }

  lemma AboveSteps(instr: int, size: int, page: int, n: nat)
    requires page > 0
    ensures var (start, maximum, cs) := (HighStart(instr, page), HighEnd(instr, size, page), Above(instr, size, page));
            && cs != [] && cs[|cs| - 1] == maximum
            && (start + SEARCH_STEP * n <= maximum ==> n < |cs| - 1 && cs[n] == start + SEARCH_STEP * n)
            && (start + SEARCH_STEP * n > maximum && (n == 0 || start + SEARCH_STEP * (n - 1) <= maximum) ==> n == |cs| - 1)
  {
    hide HighStart, HighEnd;
  }

  // Every address of both searches refused.
  function Everywhere(instr: int, page: int): seq<Ask>
    requires page > 0
  {
    var size := AlignUp(POOL_SIZE, page);
    Refusals(Below(instr, size, page) + Above(instr, size, page), size)
  }

  // The n-th address of both searches granted, after all before it were refused.
  ghost predicate GrantedOf(before: seq<Ask>, after: seq<Ask>, instr: int, page: int, n: nat)
    requires page > 0
  {
    var size := AlignUp(POOL_SIZE, page);
    |before| <= |after| && GrantedAt(after[|before|..], Below(instr, size, page) + Above(instr, size, page), size, n)
  }

  // What the two searches together have asked for.
  lemma NearGrantedBelow(before: seq<Ask>, after: seq<Ask>, instr: int, page: int, idx: int, pools: nat)
    requires page > 0 && idx >= 0
    requires Searched(before, after, Below(instr, AlignUp(POOL_SIZE, page), page), AlignUp(POOL_SIZE, page), idx, pools)
    ensures exists n :: GrantedOf(before, after, instr, page, n)
  {
    hide Below, Above, AlignUp, Refusals;
    var size := AlignUp(POOL_SIZE, page);
    var (b, a) := (Below(instr, size, page), Above(instr, size, page));
    var n: nat :| GrantedAt(after[|before|..], b, size, n);
    assert (b + a)[..n] == b[..n];
    assert GrantedOf(before, after, instr, page, n);
  }

  lemma NearAsked(before: seq<Ask>, between: seq<Ask>, after: seq<Ask>, instr: int, page: int, first: int,
                  idx: int, pools: nat)
    requires page > 0 && first < 0
    requires var size := AlignUp(POOL_SIZE, page);
             && Searched(before, between, Below(instr, size, page), size, first, pools)
             && Searched(between, after, Above(instr, size, page), size, idx, if idx >= 0 then pools + 1 else pools)
    ensures idx >= 0 && pools < MAX_POOLS ==> exists n :: GrantedOf(before, after, instr, page, n)
    ensures idx < 0 ==> pools >= MAX_POOLS || after == before + Everywhere(instr, page)
  {
    hide Below, Above, AlignUp;
    var size := AlignUp(POOL_SIZE, page);
    var (b, a) := (Below(instr, size, page), Above(instr, size, page));
    if pools < MAX_POOLS {
      assert between == before + Refusals(b, size);
      if idx >= 0 {
        var n: nat :| GrantedAt(after[|between|..], a, size, n);
        assert (b + a)[..|b| + n] == b + a[..n];
        assert Refusals(b + a[..n], size) == Refusals(b, size) + Refusals(a[..n], size);
        assert after[|before|..] == Refusals(b, size) + after[|between|..];
        assert GrantedOf(before, after, instr, page, |b| + n);
      } else {
        assert after == between + Refusals(a, size);
        assert Refusals(b + a, size) == Refusals(b, size) + Refusals(a, size);
      }
    }
  }

  // One more pool, empty and within reach of the site.
  predicate Fresh(before: seq<Pool>, after: seq<Pool>, instr: int, size: int) {
    && |before| < MAX_POOLS && |after| == |before| + 1 && after[..|before|] == before
    && var p := after[|before|];
    && p == Pool(p.base, size, p.base) && Suitable(p, instr)
  }

  // The search misses no stretch of 1 MB and a page on either side that a branch reaches:
  // wherever it could map, it asks for an address less than that away.
  lemma SearchCovers(instr: int, size: int, page: int, z: int) returns (c: int)
    requires ISLAND_BYTES <= size <= RANGE && 4 <= page <= SEARCH_STEP && page % 4 == 0 && size <= instr - page
    requires instr - RANGE <= z <= instr - size || instr + page <= z <= instr + RANGE - size
    requires z >= page
    ensures c in Below(instr, size, page) || c in Above(instr, size, page)
    ensures z - SEARCH_STEP - page < c < z + SEARCH_STEP + page
  {
    if z <= instr - size {
      c := BelowCovers(instr, size, page, z);
    } else {
      c := AboveCovers(instr, size, page, z);
    }
  }

  lemma LowBounds(instr: int, size: int, page: int)
    requires 4 <= page && page % 4 == 0 && size < instr
    ensures instr - size - page < LowStart(instr, size, page) <= instr - size
    ensures if instr > RANGE then instr - RANGE <= LowEnd(instr, page) < instr - RANGE + page else LowEnd(instr, page) == page
  {
    Aligned(instr - size, page);
    Aligned(instr - RANGE, page);
  }

  lemma HighBounds(instr: int, size: int, page: int)
    requires 4 <= page && page % 4 == 0
    ensures instr + page <= HighStart(instr, page) < instr + 2 * page
    ensures instr + RANGE - size - page < HighEnd(instr, size, page) <= instr + RANGE - size
  {
    Aligned(instr + page, page);
    Aligned(instr + RANGE - size, page);
  }

  lemma BelowCovers(instr: int, size: int, page: int, z: int) returns (c: int)
    requires ISLAND_BYTES <= size <= RANGE && 4 <= page <= SEARCH_STEP && page % 4 == 0 && size <= instr - page
    requires instr - RANGE <= z <= instr - size && z >= page
    ensures c in Below(instr, size, page) && z - SEARCH_STEP - page < c < z + SEARCH_STEP + page
  {
    hide LowStart, LowEnd;
    var (start, minimum, cs) := (LowStart(instr, size, page), LowEnd(instr, page), Below(instr, size, page));
    LowBounds(instr, size, page);
    if z < minimum || start < minimum {
      c := minimum;
      assert c == cs[|cs| - 1];
    } else if z > start {
      c := start;
      assert c == cs[0];
    } else {
      var k := (start - z) / SEARCH_STEP;
      c := start - SEARCH_STEP * k;
      assert c == cs[k];
    }
  }

  lemma AboveCovers(instr: int, size: int, page: int, z: int) returns (c: int)
    requires ISLAND_BYTES <= size <= RANGE && 4 <= page <= SEARCH_STEP && page % 4 == 0
    requires instr + page <= z <= instr + RANGE - size
    ensures c in Above(instr, size, page) && z - SEARCH_STEP - page < c < z + SEARCH_STEP + page
  {
    hide HighStart, HighEnd;
    var (start, maximum, cs) := (HighStart(instr, page), HighEnd(instr, size, page), Above(instr, size, page));
    HighBounds(instr, size, page);
    if z > maximum || maximum < start {
      c := maximum;
      assert c == cs[|cs| - 1];
    } else if z < start {
      c := start;
      assert c == cs[0];
    } else {
      var k := (z - start) / SEARCH_STEP;
      c := start + SEARCH_STEP * k;
      assert c == cs[k];
    }
  }

  // --- The gate ---

  class Gate {
    const img: Image
    const page: int
    var pools: seq<Pool>
    var mem: map<int, U32>
    var ranges: seq<Range>
    ghost var sites: seq<Site>
    ghost var asked: seq<Ask>

    ghost function View(): State
      reads this
    {
      State(pools, mem, ranges, sites)
    }

    ghost predicate Valid()
      reads this
    {
      Ok(img, View()) && 4 <= page <= 0x400_0000 && page % 4 == 0
    }

    // machgate_pool_alloc gave `pool`, or nothing when the adjacent space is used up.
    constructor (img: Image, page: int, ranges: seq<Range>, pool: int)
      requires 4 <= page <= 0x400_0000 && page % 4 == 0
      requires Covered(img.text, ranges)
      requires pool != 0 ==>
                 && pool % 4 == 0 && Apart(Range(pool, POOL_SIZE), img.text)
                 && Covered(Range(pool, POOL_SIZE), ranges)
      ensures Valid() && this.img == img && sites == [] && this.mem == img.before && asked == []
      ensures pools == if pool != 0 then [Pool(pool, POOL_SIZE, pool)] else []
    {
      this.img, this.page, this.mem, this.ranges := img, page, img.before, ranges;
      this.sites, this.asked := [], [];
      this.pools := if pool != 0 then [Pool(pool, POOL_SIZE, pool)] else [];
    }

    // map_gate_pool_at, then register_gate_pool. The kernel may refuse any
    // address and never grants one that overlaps an existing mapping; idx is
    // the new pool's index, or -1.
    method TryPool(address: int, size: int) returns (mapped: bool, idx: int)
      requires Valid() && address % 4 == 0 && ISLAND_BYTES <= size
      modifies this`pools, this`ranges, this`asked
      ensures Valid() && (idx >= 0 ==> mapped) && asked == old(asked) + [Ask(address, size, mapped)]
      ensures if idx < 0 then pools == old(pools) && (mapped ==> |pools| >= MAX_POOLS)
              else idx == |old(pools)| < MAX_POOLS && pools == old(pools) + [Pool(address, size, address)]
    {
      idx := -1;
      var granted: bool := *;
      mapped := granted && forall q :: q in ranges ==> Apart(Range(address, size), q);
      asked := asked + [Ask(address, size, mapped)];
      if mapped {
        ghost var s := View();
        if |pools| >= MAX_POOLS {
          KeepRange(img, s, Range(address, size));
        } else {
          KeepPool(img, s, Pool(address, size, address));
          idx := |pools|;
          pools := pools + [Pool(address, size, address)];
        }
        ranges := ranges + [Range(address, size)];
      }
    }

    // find_gate_pool: the first pool with room within reach, or -1.
    method FindPool(instr: int) returns (idx: int)
      ensures -1 <= idx < |pools|
      ensures idx >= 0 ==> Suitable(pools[idx], instr)
      ensures forall i :: 0 <= i < |pools| && (idx < 0 || i < idx) ==> !Suitable(pools[i], instr)
    {
      for i := 0 to |pools|
        invariant forall j :: 0 <= j < i ==> !Suitable(pools[j], instr)
      {
        var p := pools[i];
        if p.cur + ISLAND_BYTES > p.End() {
          continue;
        }
        if BranchInRange(p.cur - instr) {
          return i;
        }
      }
      return -1;
    }

    // allocate_gate_pool_below: from just under the site down to 128 MB below.
    method AllocateBelow(instr: int, size: int) returns (idx: int)
      requires Valid() && instr >= 0 && instr % 4 == 0 && ISLAND_BYTES <= size <= RANGE && size % 4 == 0
      modifies this`pools, this`ranges, this`asked
      ensures Valid()
      ensures if idx < 0 then pools == old(pools) else Fresh(old(pools), pools, instr, size) && idx == |old(pools)|
      ensures Searched(old(asked), asked, Below(instr, size, page), size, idx, |pools|)
    {
      hide Ok, Near, Suitable, Refusals, Searched, Below, LowStart, LowEnd;
      var start := LowStart(instr, size, page);
      var minimum := LowEnd(instr, page);
      AlignedEnds(instr, size, page);
      BelowIsNear(instr, size, page, minimum);
      var mapped;
      var address := start;
      ghost var (cs, n) := (Below(instr, size, page), 0);
      AllRefused(cs, size);
      BelowSteps(instr, size, page, 0);
      while address >= minimum
        invariant Valid() && pools == old(pools) && address <= start && address % 4 == 0
        invariant address == start - SEARCH_STEP * n && n < |cs|
        invariant n == 0 || start - SEARCH_STEP * (n - 1) >= minimum
        invariant asked == old(asked) + Refusals(cs[..n], size)
        decreases address - minimum
      {
        BelowIsNear(instr, size, page, address);
        NearIsSuitable(address, size, instr);
        BelowSteps(instr, size, page, n);
        mapped, idx := TryPool(address, size);
        if mapped {
          SearchGranted(old(asked), asked, cs, size, n, idx, |pools|);
          return;
        }
        OneMore(cs, size, n);
        n := n + 1;
        BelowSteps(instr, size, page, n);
        if address < minimum + SEARCH_STEP {
          break;
        }
        address := address - SEARCH_STEP;
      }
      BelowSteps(instr, size, page, n);
      NearIsSuitable(minimum, size, instr);
      mapped, idx := TryPool(minimum, size);
      if mapped {
        SearchGranted(old(asked), asked, cs, size, n, idx, |pools|);
      } else {
        SearchRefused(old(asked), asked, cs, size, idx, |pools|);
      }
    }

    // allocate_gate_pool_above: from the next page up to 128 MB less the pool.
    method AllocateAbove(instr: int, size: int) returns (idx: int)
      requires Valid() && instr >= 0 && instr % 4 == 0 && ISLAND_BYTES <= size <= RANGE && size % 4 == 0
      modifies this`pools, this`ranges, this`asked
      ensures Valid()
      ensures if idx < 0 then pools == old(pools) else Fresh(old(pools), pools, instr, size) && idx == |old(pools)|
      ensures Searched(old(asked), asked, Above(instr, size, page), size, idx, |pools|)
    {
      hide Ok, Near, Suitable, Refusals, Searched, Above, HighStart, HighEnd;
      var start := HighStart(instr, page);
      var maximum := HighEnd(instr, size, page);
      AlignedHighEnds(instr, size, page);
      AboveIsNear(instr, size, page, maximum);
      var mapped;
      var address := start;
      ghost var (cs, n) := (Above(instr, size, page), 0);
      AllRefused(cs, size);
      AboveSteps(instr, size, page, 0);
      while address <= maximum
        invariant Valid() && pools == old(pools) && start <= address && address % 4 == 0
        invariant address == start + SEARCH_STEP * n && n < |cs|
        invariant n == 0 || start + SEARCH_STEP * (n - 1) <= maximum
        invariant asked == old(asked) + Refusals(cs[..n], size)
        decreases maximum - address
      {
        AboveIsNear(instr, size, page, address);
        NearIsSuitable(address, size, instr);
        AboveSteps(instr, size, page, n);
        mapped, idx := TryPool(address, size);
        if mapped {
          SearchGranted(old(asked), asked, cs, size, n, idx, |pools|);
          return;
        }
        OneMore(cs, size, n);
        n := n + 1;
        AboveSteps(instr, size, page, n);
        if maximum - address < SEARCH_STEP {
          break;
        }
        address := address + SEARCH_STEP;
      }
      AboveSteps(instr, size, page, n);
      NearIsSuitable(maximum, size, instr);
      mapped, idx := TryPool(maximum, size);
      if mapped {
        SearchGranted(old(asked), asked, cs, size, n, idx, |pools|);
      } else {
        SearchRefused(old(asked), asked, cs, size, idx, |pools|);
      }
    }

    // allocate_gate_pool_near: below, then above.
    method AllocateNear(instr: int) returns (idx: int)
      requires Valid() && instr >= 0 && instr % 4 == 0
      modifies this`pools, this`ranges, this`asked
      ensures Valid()
      ensures if idx < 0 then pools == old(pools) && (|pools| >= MAX_POOLS || asked == old(asked) + Everywhere(instr, page))
              else Fresh(old(pools), pools, instr, AlignUp(POOL_SIZE, page)) && idx == |old(pools)|
      ensures idx >= 0 ==> exists n :: GrantedOf(old(asked), asked, instr, page, n)
    {
      var size := AlignUp(POOL_SIZE, page);
      Aligned(POOL_SIZE, page);
      hide AlignUp, Ok, Suitable, Below, Above, Searched, GrantedOf, Everywhere;
      ghost var before := asked;
      idx := AllocateBelow(instr, size);
      if idx >= 0 {
        NearGrantedBelow(before, asked, instr, page, idx, |pools|);
      } else {
        ghost var (between, first) := (asked, idx);
        idx := AllocateAbove(instr, size);
        NearAsked(before, between, asked, instr, page, first, idx, |old(pools)|);
      }
    }

    // patch_instruction: never rechecks the reach of a fresh pool, and need not. It takes
    // the first registered pool that serves the site; only without one does it ask for a
    // pool, and it fails only if every address was refused or the table of pools is full.
    method PatchInstruction(instr: int) returns (ok: bool)
      requires Valid() && InText(img, instr) && instr >= 0 && !IsSite(sites, instr)
      modifies this
      ensures Valid()
      ensures ok ==> |sites| == |old(sites)| + 1 && sites[..|old(sites)|] == old(sites) && sites[|old(sites)|].instr == instr
      ensures !ok ==> sites == old(sites) && mem == old(mem)
      ensures var k := FirstSuitable(old(pools), instr, 0);
              if k < |old(pools)| then
                && ok && asked == old(asked) && sites[|old(sites)|].pool == k
                && pools == old(pools)[k := Advanced(old(pools)[k])]
              else if ok then
                && |pools| == |old(pools)| + 1 && pools[..|old(pools)|] == old(pools)
                && sites[|old(sites)|] == Site(instr, |old(pools)|, 0)
                && exists n :: GrantedOf(old(asked), asked, instr, page, n)
              else
                pools == old(pools) && (|pools| >= MAX_POOLS || asked == old(asked) + Everywhere(instr, page))
    {
      hide Ok, PoolOk, IsSite, IslandWords, EncB, WriteWords, Suitable, GrantedOf, Everywhere, FirstSuitable, AlignUp;
      var idx := FindPool(instr);
      FirstIs(pools, instr, if idx < 0 then |pools| else idx);
      if idx < 0 {
        idx := AllocateNear(instr);
      }
      if idx < 0 {
        return false;
      }
      ghost var s := View();
      CanPatch(img, s, idx, instr);
      KeepPatched(img, s, idx, instr);
      var p := pools[idx];
      var island := p.cur;
      mem := WriteWords(mem, island, IslandWords(Literals(img.dispatcher, instr + 4)));
      mem := mem[instr := EncB((island - instr) / 4)];
      pools := pools[idx := p.(cur := island + ISLAND_BYTES)];
      sites := sites + [SiteOf(s, idx, instr)];
      ok := true;
      assert View() == Patched(img, s, idx, instr);
    }

    // patch_section: the number of sites patched, or -1. A registered pool with room for
    // all of them within reach is enough, whatever the kernel would answer.
    method PatchSection(start: int, count: nat) returns (patched: int)
      requires Valid() && start >= 0 && start % 4 == 0
      requires img.text.base <= start && start + 4 * count <= img.text.base + img.text.size && start + 4 * count < TWO64
      requires forall i :: 0 <= i < count ==> start + 4 * i in img.before && !IsSite(sites, start + 4 * i)
      modifies this
      ensures Valid()
      ensures old(sites) <= sites && (patched >= 0 ==> |sites| == |old(sites)| + patched)
      ensures patched >= 0 ==> forall i :: 0 <= i < count ==>
                (IsSite(sites, start + 4 * i) <==> img.before[start + 4 * i] == ENC_SVC80)
      ensures patched == -1 || patched == SvcCount(img.before, start, count)
      ensures Served(old(pools), img.before, start, count, SvcCount(img.before, start, count), 0) ==>
                patched >= 0 && |pools| == |old(pools)| && asked == old(asked)
    {
      hide Ok, IsSite, Suitable;
      patched := 0;
      ghost var total := SvcCount(img.before, start, count);
      ghost var served := Served(pools, img.before, start, count, total, 0);
      for i := 0 to count
        invariant Valid() && old(sites) <= sites && |sites| == |old(sites)| + patched && patched >= 0
        invariant forall j :: 0 <= j < count ==>
                    (IsSite(sites, start + 4 * j) <==> j < i && img.before[start + 4 * j] == ENC_SVC80)
        invariant patched + SvcCount(img.before, start + 4 * i, count - i) == total
        invariant served ==> |pools| == |old(pools)| && asked == old(asked)
        invariant served ==> Served(pools, img.before, start, count, total, patched)
      {
        var a := start + 4 * i;
        TextWord(img, View(), a);
        if mem[a] == ENC_SVC80 {
          ghost var before := sites;
          ghost var was := pools;
          if served {
            ServedFinds(pools, img.before, start, count, total, patched, i);
          }
          var ok := PatchInstruction(a);
          if !ok {
            return -1;
          }
          if served {
            StillServed(was, a, img.before, start, count, total, patched);
          }
          patched := patched + 1;
          GrowSites(before, sites, start, count, i);
        }
      }
    }
  }

  function Advanced(p: Pool): Pool {
    p.(cur := p.cur + ISLAND_BYTES)
  }

  // The svc words among the count words from start.
  function SvcCount(before: map<int, U32>, start: int, count: nat): nat
    decreases count
  {
    if count == 0 then 0
    else (if IsSvc(before, start) then 1 else 0) + SvcCount(before, start + 4, count - 1)
  }

  // After `used` of the section's `total` islands the pool has room for the others, each
  // within reach of every svc of the section.
  predicate Serves(p: Pool, before: map<int, U32>, start: int, count: nat, total: nat, used: nat) {
    && p.cur + ISLAND_BYTES * (total - used) <= p.End()
    && forall i, j :: 0 <= i < count && 0 <= j < total - used && IsSvc(before, start + 4 * i) ==>
         BranchInRange(p.cur + ISLAND_BYTES * j - (start + 4 * i))
  }

  predicate IsSvc(before: map<int, U32>, a: int) {
    a in before && before[a] == ENC_SVC80
  }

  predicate Served(pools: seq<Pool>, before: map<int, U32>, start: int, count: nat, total: nat, used: nat) {
    exists p :: p in pools && Serves(p, before, start, count, total, used)
  }

  lemma ServedFinds(pools: seq<Pool>, before: map<int, U32>, start: int, count: nat, total: nat, used: nat, i: nat)
    requires Served(pools, before, start, count, total, used)
    requires i < count && used < total && IsSvc(before, start + 4 * i)
    ensures FirstSuitable(pools, start + 4 * i, 0) < |pools|
  {
    var p :| p in pools && Serves(p, before, start, count, total, used);
    assert BranchInRange(p.cur + ISLAND_BYTES * 0 - (start + 4 * i));
    assert Suitable(p, start + 4 * i);
    var k :| 0 <= k < |pools| && pools[k] == p;
  }

  // One island later, in whichever pool.
  lemma StillServed(pools: seq<Pool>, a: int, before: map<int, U32>, start: int, count: nat, total: nat, used: nat)
    requires Served(pools, before, start, count, total, used) && used < total
    requires FirstSuitable(pools, a, 0) < |pools|
    ensures var k := FirstSuitable(pools, a, 0);
            Served(pools[k := Advanced(pools[k])], before, start, count, total, used + 1)
  {
    hide BranchInRange;
    var p :| p in pools && Serves(p, before, start, count, total, used);
    var i :| 0 <= i < |pools| && pools[i] == p;
    var k := FirstSuitable(pools, a, 0);
    var pools' := pools[k := Advanced(pools[k])];
    AdvancedServes(p, before, start, count, total, used);
    assert pools'[i] in pools' && Serves(pools'[i], before, start, count, total, used + 1);
  }

  lemma AdvancedServes(p: Pool, before: map<int, U32>, start: int, count: nat, total: nat, used: nat)
    requires Serves(p, before, start, count, total, used) && used < total
    ensures Serves(p, before, start, count, total, used + 1)
    ensures Serves(Advanced(p), before, start, count, total, used + 1)
  {
    hide BranchInRange;
    var q := Advanced(p);
    forall i, j | 0 <= i < count && 0 <= j < total - (used + 1) && IsSvc(before, start + 4 * i)
      ensures BranchInRange(q.cur + ISLAND_BYTES * j - (start + 4 * i))
    {
      assert q.cur + ISLAND_BYTES * j == p.cur + ISLAND_BYTES * (j + 1);
    }
  }

  lemma GrowSites(sites: seq<Site>, sites': seq<Site>, start: int, count: nat, i: nat)
    requires |sites'| == |sites| + 1 && sites'[..|sites|] == sites && sites'[|sites|].instr == start + 4 * i
    ensures forall j :: 0 <= j < count ==>
              (IsSite(sites', start + 4 * j) <==> IsSite(sites, start + 4 * j) || j == i)
  {
    var t := sites'[|sites|];
    assert sites' == sites + [t];
    forall j | 0 <= j < count
      ensures IsSite(sites', start + 4 * j) <==> IsSite(sites, start + 4 * j) || j == i
    {
      assert t in sites';
      assert forall q :: q in sites ==> q in sites';
    }
  }

  // --- Results ---

  // A patched svc is a branch whose target is its own island.
  lemma SiteReaches(img: Image, s: State, t: Site)
    requires SiteOk(img, s, t)
    ensures var i := Decode(s.mem[t.instr]); i.B? && t.instr + 4 * i.offset == IslandAt(s.pools, t)
  {
    BranchReaches((IslandAt(s.pools, t) - t.instr) / 4);
    hide Decode, IslandWords, EncB;
  }

  // Islands lie inside the used part of registered pools, and no two share a word.
  lemma IslandsDisjoint(img: Image, s: State, a: nat, b: nat, i: nat, j: nat)
    requires Ok(img, s) && a < |s.sites| && b < |s.sites| && a != b && i < ISLAND_WORDS && j < ISLAND_WORDS
    ensures s.sites[a].pool < |s.pools| && s.sites[b].pool < |s.pools|
    ensures IslandAt(s.pools, s.sites[a]) + 4 * i != IslandAt(s.pools, s.sites[b]) + 4 * j
    ensures s.pools[s.sites[a].pool].base <= IslandAt(s.pools, s.sites[a]) + 4 * i < s.pools[s.sites[a].pool].cur
  {
    hide IslandWords, EncB, TextOk, FrameOk;
    var (ta, tb) := (s.sites[a], s.sites[b]);
    assert SiteOk(img, s, ta) && SiteOk(img, s, tb);
    SiteInPool(img, s, ta);
    SiteInPool(img, s, tb);
    IslandsApart(img, s, ta, tb, i, j);
  }

  // --- The adjacent pool that feeds the first gate pool (loader.h) ---

  class AdjacentPool {
    const base: int
    const size: int
    var used: int

    ghost predicate Valid()
      reads this
    {
      0 <= base && 0 <= used <= size
    }

    constructor (base: int, size: int)
      requires 0 <= base && 0 <= size
      ensures Valid() && used == 0 && this.base == base && this.size == size
    {
      this.base, this.size, this.used := base, size, 0;
    }

    // machgate_pool_alloc: a page-aligned chunk beyond everything handed out
    // before, or 0 if there is no room.
    method Alloc(bytes: nat) returns (p: int)
      requires Valid()
      modifies this
      ensures Valid() && old(used) <= used
      ensures p == 0 ==> used == old(used)
      ensures p != 0 ==> (p - base) % 4096 == 0 && base + old(used) <= p && p + bytes == base + used <= base + size
      ensures p == 0 <==> base == 0 || AlignUp(old(used), 4096) + bytes > size
    {
      var off := AlignUp(used, 4096);
      Aligned(used, 4096);
      AlignedUp(used, 4096);
      hide AlignUp;
      if base == 0 || off + bytes > size {
        return 0;
      }
      p := base + off;
      used := off + bytes;
    }
  }
}
