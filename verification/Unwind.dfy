// Collecting compact unwind entries (collect_entries of eh_frame.c): two passes over the
// second-level pages, LSDA lookup by binary search, insertion sort and gap sizing; and
// the merged index of synthetic and native FDEs.
module Unwind {
  import opened Bits
  import opened Options
  import opened EhEmit
  import opened EhParse

  datatype Lsda = Lsda(function_: U32, offset: U32)

  datatype Page =
    | Compressed(entries: seq<U32>, encodings: seq<U32>)
    | Regular(functions: seq<U32>, codes: seq<U32>)
    | Other

  // A first-level index entry: the page is absent when its offset is 0 or outside the
  // section; lsdas are the LSDA entries up to the next index entry's.
  datatype Index = Index(base: U32, page: Option<Page>, lsdas: seq<Lsda>)

  predicate WellFormed(ix: seq<Index>) {
    forall k :: 0 <= k < |ix| && ix[k].page.Some? && ix[k].page.value.Regular? ==>
      |ix[k].page.value.functions| == |ix[k].page.value.codes|
  }

  function PageCount(i: Index): nat {
    match i.page
    case Some(Compressed(es, _)) => |es|
    case Some(Regular(fs, _)) => |fs|
    case _ => 0
  }

  function Total(ix: seq<Index>): nat {
    if ix == [] then 0 else Total(ix[..|ix| - 1]) + PageCount(ix[|ix| - 1])
  }

  // --- LSDA lookup ---

  // The search between lo and hi; 0 when the function is not listed.
  function Search(t: seq<Lsda>, f: U32, lo: int, hi: int): U32
    requires 0 <= lo && hi < |t|
    decreases hi - lo
  {
    if lo > hi then 0
    else
      var mid := (lo + hi) / 2;
      if t[mid].function_ == f then t[mid].offset
      else if t[mid].function_ < f then Search(t, f, mid + 1, hi)
      else Search(t, f, lo, mid - 1)
  }

  function Linear(t: seq<Lsda>, f: U32, i: nat): U32
    requires i <= |t|
    decreases |t| - i
  {
    if i == |t| then 0 else if t[i].function_ == f then t[i].offset else Linear(t, f, i + 1)
  }

  ghost predicate Increasing(t: seq<Lsda>) {
    forall i, j :: 0 <= i < j < |t| ==> t[i].function_ < t[j].function_
  }

  method FindLsda(t: seq<Lsda>, f: U32) returns (r: U32)
    ensures r == Search(t, f, 0, |t| - 1)
    ensures Increasing(t) ==> r == Linear(t, f, 0)
  {
    if Increasing(t) {
      SearchAgrees(t, f, 0, |t| - 1);
    }
    var lo, hi := 0, |t| - 1;
    r := 0;
    while lo <= hi
      invariant 0 <= lo && hi < |t|
      invariant Search(t, f, lo, hi) == Search(t, f, 0, |t| - 1)
      decreases hi - lo
    {
      var mid := (lo + hi) / 2;
      if t[mid].function_ == f {
        return t[mid].offset;
      } else if t[mid].function_ < f {
        lo := mid + 1;
      } else {
        hi := mid - 1;
      }
    }
  }

  // On a sorted table the binary search and the linear search agree.
  lemma {:induction false} SearchAgrees(t: seq<Lsda>, f: U32, lo: int, hi: int)
    requires Increasing(t) && 0 <= lo && hi < |t|
    requires forall i :: 0 <= i < |t| && !(lo <= i <= hi) ==> t[i].function_ != f
    ensures Search(t, f, lo, hi) == Linear(t, f, 0)
    decreases hi - lo
  {
    if lo > hi {
      LinearMiss(t, f, 0);
    } else {
      var mid := (lo + hi) / 2;
      if t[mid].function_ == f {
        LinearHit(t, f, 0, mid);
      } else if t[mid].function_ < f {
        SearchAgrees(t, f, mid + 1, hi);
      } else {
        SearchAgrees(t, f, lo, mid - 1);
      }
    }
  }

  lemma {:induction false} LinearMiss(t: seq<Lsda>, f: U32, i: nat)
    requires i <= |t| && forall k :: i <= k < |t| ==> t[k].function_ != f
    ensures Linear(t, f, i) == 0
    decreases |t| - i
  {
    if i < |t| {
      LinearMiss(t, f, i + 1);
    }
  }

  lemma {:induction false} LinearHit(t: seq<Lsda>, f: U32, i: nat, m: nat)
    requires i <= m < |t| && t[m].function_ == f && forall k :: i <= k < m ==> t[k].function_ != f
    ensures Linear(t, f, i) == t[m].offset
    decreases m - i
  {
    if i < m {
      LinearHit(t, f, i + 1, m);
    }
  }

  // --- Entries ---

  function LsdaFor(i: Index, f: U32, encoding: U32): U32 {
    if HasLsda(encoding) then Search(i.lsdas, f, 0, |i.lsdas| - 1) else 0
  }

  function EncodingAt(common: seq<U32>, local: seq<U32>, k: nat): U32 {
    if k < |common| then common[k] else if k - |common| < |local| then local[k - |common|] else 0
  }

  // The k-th entry of a page; sizes come later.
  function EntryAt(i: Index, common: seq<U32>, k: nat): CuEntry
    requires WellFormed([i]) && k < PageCount(i)
  {
    assert [i][0] == i;
    match i.page.value
    case Compressed(es, local) =>
      var f := (i.base + es[k] % 0x100_0000) % TWO32;
      var c := EncodingAt(common, local, es[k] / 0x100_0000);
      CuEntry(f, 0, c, LsdaFor(i, f, c))
    case Regular(fs, cs) =>
      CuEntry(fs[k], 0, cs[k], LsdaFor(i, fs[k], cs[k]))
  }

  function PageEntries(i: Index, common: seq<U32>, n: nat): (r: seq<CuEntry>)
    requires WellFormed([i]) && n <= PageCount(i)
    ensures |r| == n
  {
    if n == 0 then [] else PageEntries(i, common, n - 1) + [EntryAt(i, common, n - 1)]
  }

  function AllEntries(ix: seq<Index>, common: seq<U32>): (r: seq<CuEntry>)
    requires WellFormed(ix)
    ensures |r| == Total(ix)
  {
    if ix == [] then []
    else
      var last := ix[|ix| - 1];
      assert WellFormed([last]);
      AllEntries(ix[..|ix| - 1], common) + PageEntries(last, common, PageCount(last))
  }

  // --- Sorting ---

  ghost predicate Ordered(s: seq<CuEntry>) {
    forall i, j :: 0 <= i < j < |s| ==> s[i].offset <= s[j].offset
  }

  // Insertion from the right, after equal offsets.
  function Insert(s: seq<CuEntry>, x: CuEntry): seq<CuEntry> {
    if s == [] || s[|s| - 1].offset <= x.offset then s + [x]
    else Insert(s[..|s| - 1], x) + [s[|s| - 1]]
  }

  function Sort(s: seq<CuEntry>): (r: seq<CuEntry>)
    ensures |r| == |s|
  {
    if s == [] then []
    else
      InsertSize(Sort(s[..|s| - 1]), s[|s| - 1]);
      Insert(Sort(s[..|s| - 1]), s[|s| - 1])
  }

  lemma {:induction false} InsertSize(s: seq<CuEntry>, x: CuEntry)
    ensures |Insert(s, x)| == |s| + 1
  {
    if s != [] && s[|s| - 1].offset > x.offset {
      InsertSize(s[..|s| - 1], x);
    }
  }

  lemma {:induction false} InsertKeeps(s: seq<CuEntry>, x: CuEntry)
    ensures multiset(Insert(s, x)) == multiset(s) + multiset{x}
  {
    if s != [] && s[|s| - 1].offset > x.offset {
      InsertKeeps(s[..|s| - 1], x);
      assert s == s[..|s| - 1] + [s[|s| - 1]];
    }
  }

  lemma {:induction false} InsertOrders(s: seq<CuEntry>, x: CuEntry)
    requires Ordered(s)
    ensures Ordered(Insert(s, x))
  {
    if s != [] && s[|s| - 1].offset > x.offset {
      var (t, last) := (s[..|s| - 1], s[|s| - 1]);
      InsertOrders(t, x);
      InsertKeeps(t, x);
      hide Insert;
      forall k | 0 <= k < |Insert(t, x)|
        ensures Insert(t, x)[k].offset <= last.offset
      {
        assert Insert(t, x)[k] in multiset(Insert(t, x));
        assert Insert(t, x)[k] == x || Insert(t, x)[k] in t;
      }
      InsertUnfolds(s, x);
    }
  }

  lemma InsertUnfolds(s: seq<CuEntry>, x: CuEntry)
    requires s != [] && s[|s| - 1].offset > x.offset
    ensures Insert(s, x) == Insert(s[..|s| - 1], x) + [s[|s| - 1]]
  {
  }

  lemma {:induction false} SortSorts(s: seq<CuEntry>)
    ensures multiset(Sort(s)) == multiset(s) && Ordered(Sort(s))
  {
    if s != [] {
      SortSorts(s[..|s| - 1]);
      InsertKeeps(Sort(s[..|s| - 1]), s[|s| - 1]);
      InsertOrders(Sort(s[..|s| - 1]), s[|s| - 1]);
      assert s == s[..|s| - 1] + [s[|s| - 1]];
    }
  }

  // The in-place insertion sort.
  method InsertionSort(a: array<CuEntry>)
    modifies a
    ensures a[..] == Sort(old(a[..]))
  {
    ghost var was := a[..];
    var i := 1;
    SortSmall(was);
    while i < a.Length
      invariant 1 <= i && (i <= a.Length || a.Length == 0)
      invariant i <= a.Length ==> a[..i] == Sort(was[..i]) && a[i..] == was[i..]
      invariant a.Length == 0 ==> a[..] == Sort(was)
    {
      var tmp := a[i];
      assert tmp == was[i];
      InsertInto(a, i, tmp);
      assert was[..i + 1][..i] == was[..i];
      assert was[i + 1..] == was[i..][1..];
      i := i + 1;
    }
    if a.Length > 0 {
      assert a[..i] == a[..] && was[..i] == was;
    }
  }

  lemma SortSmall(s: seq<CuEntry>)
    ensures s == [] ==> Sort(s) == []
    ensures |s| >= 1 ==> Sort(s[..1]) == s[..1]
  {
    if |s| >= 1 {
      assert s[..1][..0] == [];
      assert Sort(s[..1]) == Insert(Sort([]), s[0]);
    }
  }

  // Moves a[i] into its place among a[..i].
  method InsertInto(a: array<CuEntry>, i: nat, tmp: CuEntry)
    requires i < a.Length
    modifies a
    ensures a[..i + 1] == Insert(old(a[..i]), tmp)
    ensures a[i + 1..] == old(a[i + 1..])
  {
    hide Insert, Shifted;
    ghost var was := a[..];
    var j := i - 1;
    ShiftNone(was, i, tmp);
    while j >= 0 && a[j].offset > tmp.offset
      invariant -1 <= j < i && Shifted(a[..], was, i, j, tmp)
    {
      ShiftOne(a[..], was, i, j, tmp);
      a[j + 1] := a[j];
      j := j - 1;
    }
    ShiftTail(a[..], was, i, j, tmp);
    ShiftDone(a[..], was, i, j, tmp);
    a[j + 1] := tmp;
  }

  // The elements after j have moved one up.
  ghost predicate Shifted(now: seq<CuEntry>, was: seq<CuEntry>, i: nat, j: int, tmp: CuEntry) {
    && |now| == |was| && i < |now| && -1 <= j < i
    && (forall k :: 0 <= k <= j ==> now[k] == was[k])
    && (forall k :: j < k < i ==> now[k + 1] == was[k] && was[k].offset > tmp.offset)
    && (forall k :: i < k < |now| ==> now[k] == was[k])
  }

  lemma ShiftNone(was: seq<CuEntry>, i: nat, tmp: CuEntry)
    requires i < |was|
    ensures Shifted(was, was, i, i - 1, tmp)
  {
  }

  lemma ShiftOne(now: seq<CuEntry>, was: seq<CuEntry>, i: nat, j: int, tmp: CuEntry)
    requires Shifted(now, was, i, j, tmp) && j >= 0 && now[j].offset > tmp.offset
    ensures Shifted(now[j + 1 := now[j]], was, i, j - 1, tmp)
  {
  }

  lemma ShiftTail(now: seq<CuEntry>, was: seq<CuEntry>, i: nat, j: int, tmp: CuEntry)
    requires Shifted(now, was, i, j, tmp)
    ensures forall k :: j < k < i ==> was[k].offset > tmp.offset
  {
  }

  lemma ShiftDone(now: seq<CuEntry>, was: seq<CuEntry>, i: nat, j: int, tmp: CuEntry)
    requires Shifted(now, was, i, j, tmp) && (j >= 0 ==> now[j].offset <= tmp.offset)
    requires forall k :: j < k < i ==> was[k].offset > tmp.offset
    ensures j + 1 < |now|
    ensures now[j + 1 := tmp][..i + 1] == Insert(was[..i], tmp)
    ensures now[j + 1 := tmp][i + 1..] == was[i + 1..]
  {
    hide Insert;
    var (p, pre) := (j + 1, was[..i]);
    ShiftSplice(now, was, i, j, tmp);
    assert j >= 0 ==> pre[j] == now[j];
    hide Shifted;
    InsertedAt(pre, p, tmp);
  }

  lemma ShiftSplice(now: seq<CuEntry>, was: seq<CuEntry>, i: nat, j: int, tmp: CuEntry)
    requires Shifted(now, was, i, j, tmp)
    ensures now[j + 1 := tmp][..i + 1] == was[..i][..j + 1] + [tmp] + was[..i][j + 1..]
    ensures now[j + 1 := tmp][i + 1..] == was[i + 1..]
  {
    Spliced(now[j + 1 := tmp][..i + 1], was[..i], j + 1, tmp);
  }

  lemma Spliced(now: seq<CuEntry>, pre: seq<CuEntry>, p: nat, x: CuEntry)
    requires |now| == |pre| + 1 && p <= |pre| && now[p] == x
    requires forall k :: 0 <= k < p ==> now[k] == pre[k]
    requires forall k :: p <= k < |pre| ==> now[k + 1] == pre[k]
    ensures now == pre[..p] + [x] + pre[p..]
  {
  }

  // Insertion puts x before the trailing elements with a greater offset.
  lemma {:induction false} InsertedAt(s: seq<CuEntry>, k: nat, x: CuEntry)
    requires k <= |s| && (k > 0 ==> s[k - 1].offset <= x.offset)
    requires forall i :: k <= i < |s| ==> s[i].offset > x.offset
    ensures Insert(s, x) == s[..k] + [x] + s[k..]
    decreases |s|
  {
    if k < |s| {
      var t := s[..|s| - 1];
      InsertedAt(t, k, x);
      assert s[..k] == t[..k] && s[k..] == t[k..] + [s[|s| - 1]];
    }
  }

  // --- Sizes ---

  // Up to the next entry's offset; 256 for the last.
  function Gap(s: seq<CuEntry>, i: nat): U32
    requires i < |s|
  {
    if i + 1 < |s| then (s[i + 1].offset - s[i].offset) % TWO32 else 256
  }

  function Sized(s: seq<CuEntry>): seq<CuEntry> {
    seq(|s|, i requires 0 <= i < |s| => s[i].(size := Gap(s, i)))
  }

  // Consecutive ranges of a sorted list abut.
  lemma SizedAbuts(s: seq<CuEntry>, i: nat)
    requires Ordered(s) && i < |s|
    ensures Sized(s)[i].size == if i + 1 < |s| then s[i + 1].offset - s[i].offset else 256
    ensures i + 1 < |s| ==> Sized(s)[i].offset + Sized(s)[i].size == Sized(s)[i + 1].offset
  {
  }

  method SetSizes(a: array<CuEntry>)
    modifies a
    ensures a[..] == Sized(old(a[..]))
  {
    ghost var was := a[..];
    var i := 0;
    while i < a.Length - 1
      invariant 0 <= i && (i <= a.Length - 1 || i == a.Length == 0)
      invariant forall k :: 0 <= k < i ==> a[k] == Sized(was)[k]
      invariant forall k :: i <= k < a.Length ==> a[k] == was[k]
    {
      a[i] := a[i].(size := (a[i + 1].offset - a[i].offset) % TWO32);
      i := i + 1;
    }
    if a.Length > 0 {
      a[a.Length - 1] := a[a.Length - 1].(size := 256);
    }
  }

  // --- The two passes ---

  method CountEntries(ix: seq<Index>) returns (total: nat)
    ensures total == Total(ix)
  {
    total := 0;
    for k := 0 to |ix|
      invariant total == Total(ix[..k])
    {
      assert ix[..k + 1][..k] == ix[..k];
      total := total + PageCount(ix[k]);
    }
    assert ix[..|ix|] == ix;
  }

  // One page, written at count.
  method FillPage(i: Index, common: seq<U32>, a: array<CuEntry>, start: nat, total: nat) returns (count: nat)
    requires WellFormed([i]) && start + PageCount(i) <= total == a.Length
    modifies a
    ensures count == start + PageCount(i)
    ensures a[..count] == old(a[..start]) + PageEntries(i, common, PageCount(i))
  {
    ghost var before := a[..start];
    count := start;
    var k := 0;
    while k < PageCount(i) && count < total
      invariant 0 <= k <= PageCount(i) && count == start + k
      invariant a[..count] == before + PageEntries(i, common, k)
    {
      ghost var was := a[..count];
      var e := Collected(i, common, k);
      a[count] := e;
      count := count + 1;
      assert a[..count] == was + [e];
      k := k + 1;
    }
  }

  // The entry as the loop body computes it, with the search run.
  method Collected(i: Index, common: seq<U32>, k: nat) returns (e: CuEntry)
    requires WellFormed([i]) && k < PageCount(i)
    ensures e == EntryAt(i, common, k)
  {
    assert [i][0] == i;
    var f: U32, c: U32 := 0, 0;
    match i.page.value {
      case Compressed(es, local) =>
        f := (i.base + es[k] % 0x100_0000) % TWO32;
        c := EncodingAt(common, local, es[k] / 0x100_0000);
      case Regular(fs, cs) =>
        f, c := fs[k], cs[k];
    }
    var lsda: U32 := 0;
    if HasLsda(c) {
      lsda := FindLsda(i.lsdas, f);
    }
    e := CuEntry(f, 0, c, lsda);
  }

  // collect_entries: exactly the counted total, sorted, sized.
  method Collect(ix: seq<Index>, common: seq<U32>) returns (a: array<CuEntry>)
    requires WellFormed(ix)
    ensures fresh(a)
    ensures a.Length == Total(ix)
    ensures a[..] == Sized(Sort(AllEntries(ix, common)))
  {
    var total := CountEntries(ix);
    a := new CuEntry[total](_ => CuEntry(0, 0, 0, 0));
    var count := 0;
    for k := 0 to |ix|
      invariant count == Total(ix[..k]) <= total
      invariant a[..count] == AllEntries(ix[..k], common)
    {
      var i := ix[k];
      assert WellFormed([i]);
      assert ix[..k + 1][..k] == ix[..k];
      TotalMonotone(ix, k + 1);
      count := FillPage(i, common, a, count, total);
    }
    assert ix[..|ix|] == ix && a[..count] == a[..];
    InsertionSort(a);
    SetSizes(a);
  }

  lemma {:induction false} TotalMonotone(ix: seq<Index>, k: nat)
    requires k <= |ix|
    ensures Total(ix[..k]) <= Total(ix)
    decreases |ix| - k
  {
    if k == |ix| {
      assert ix[..k] == ix;
    } else {
      TotalMonotone(ix, k + 1);
      assert ix[..k + 1][..k] == ix[..k];
    }
  }

  // What Collect returns, in terms of what the pages hold.
  lemma CollectedList(ix: seq<Index>, common: seq<U32>)
    requires WellFormed(ix)
    ensures var (all, r) := (AllEntries(ix, common), Sized(Sort(AllEntries(ix, common))));
            && |r| == |all| == Total(ix)
            && multiset(Unsized(r)) == multiset(all)
            && (forall i :: 0 <= i < |r| - 1 ==> r[i].offset + r[i].size == r[i + 1].offset)
            && (r != [] ==> r[|r| - 1].size == 256)
  {
    hide PageEntries;
    var all := AllEntries(ix, common);
    AllUnsized(ix, common);
    SortSorts(all);
    var s := Sort(all);
    UnsizedSized(s);
    forall i | 0 <= i < |s|
      ensures Sized(s)[i].size == if i + 1 < |s| then s[i + 1].offset - s[i].offset else 256
    {
      SizedAbuts(s, i);
    }
    forall i | 0 <= i < |s|
      ensures s[i].size == 0
    {
      assert s[i] in multiset(s);
    }
    assert Unsized(Sized(s)) == s;
  }

  ghost function Unsized(s: seq<CuEntry>): seq<CuEntry> {
    seq(|s|, i requires 0 <= i < |s| => s[i].(size := 0))
  }

  lemma UnsizedSized(s: seq<CuEntry>)
    ensures Unsized(Sized(s)) == Unsized(s)
  {
  }

  lemma {:induction false} PageUnsized(i: Index, common: seq<U32>, n: nat)
    requires WellFormed([i]) && n <= PageCount(i)
    ensures forall k :: 0 <= k < n ==> PageEntries(i, common, n)[k].size == 0
  {
    if n > 0 {
      PageUnsized(i, common, n - 1);
    }
  }

  lemma {:induction false} AllUnsized(ix: seq<Index>, common: seq<U32>)
    requires WellFormed(ix)
    ensures forall k :: 0 <= k < |AllEntries(ix, common)| ==> AllEntries(ix, common)[k].size == 0
    decreases |ix|
  {
    if ix != [] {
      var last := ix[|ix| - 1];
      AllUnsized(ix[..|ix| - 1], common);
      assert WellFormed([last]);
      PageUnsized(last, common, PageCount(last));
      hide PageEntries;
    }
  }

  // --- The merged index ---

  predicate HasStart(hs: seq<Header>, start: U64) {
    exists i :: 0 <= i < |hs| && hs[i].start == start
  }

  // has_entry_start
  method FindStart(hs: seq<Header>, start: U64) returns (found: bool)
    ensures found == HasStart(hs, start)
  {
    for i := 0 to |hs|
      invariant forall k :: 0 <= k < i ==> hs[k].start != start
    {
      if hs[i].start == start {
        return true;
      }
    }
    found := false;
  }

  // The native FDEs whose start is not a synthetic one.
  ghost function Unshadowed(syn: seq<Header>, nat_: seq<Header>): seq<Header> {
    if nat_ == [] then []
    else
      var last := nat_[|nat_| - 1];
      Unshadowed(syn, nat_[..|nat_| - 1]) + if HasStart(syn, last.start) then [] else [last]
  }

  ghost predicate ByStart(hs: seq<Header>) {
    forall i, j :: 0 <= i < j < |hs| ==> hs[i].start <= hs[j].start
  }

  // The merge before and after sorting: the shadowed entries are counted first, then
  // exactly that many are left out.
  method MergeIndex(syn: seq<Header>, nat_: seq<Header>) returns (all: seq<Header>)
    ensures ByStart(all)
    ensures multiset(all) == multiset(syn) + multiset(Unshadowed(syn, nat_))
  {
    hide HasStart;
    var shadowed := 0;
    assert nat_[..|nat_|] == nat_;
    for i := 0 to |nat_|
      invariant shadowed + |Unshadowed(syn, nat_[..i])| == i
    {
      assert nat_[..i + 1][..i] == nat_[..i];
      var found := FindStart(syn, nat_[i].start);
      if found {
        shadowed := shadowed + 1;
      }
    }
    var total := |syn| + |nat_| - shadowed;
    all := syn;
    for i := 0 to |nat_|
      invariant all == syn + Unshadowed(syn, nat_[..i])
    {
      assert nat_[..i + 1][..i] == nat_[..i];
      var found := FindStart(syn, nat_[i].start);
      if !found {
        all := all + [nat_[i]];
      }
    }
    assert |all| == total;
    all := SortHeaders(all);
  }

  lemma NoneByStart()
    ensures ByStart([])
  {
  }

  lemma PutBetween(r: seq<Header>, k: nat, h: Header)
    requires ByStart(r) && k <= |r| && (k > 0 ==> r[k - 1].start <= h.start)
    requires forall j :: k <= j < |r| ==> r[j].start > h.start
    ensures ByStart(r[..k] + [h] + r[k..])
    ensures multiset(r[..k] + [h] + r[k..]) == multiset(r) + multiset{h}
  {
    assert r == r[..k] + r[k..];
    hide ByStart;
    PutSorted(r, k, h);
  }

  lemma PutSorted(r: seq<Header>, k: nat, h: Header)
    requires ByStart(r) && k <= |r| && (k > 0 ==> r[k - 1].start <= h.start)
    requires forall j :: k <= j < |r| ==> r[j].start > h.start
    ensures ByStart(r[..k] + [h] + r[k..])
  {
    var t := r[..k] + [h] + r[k..];
    forall i, j | 0 <= i < j < |t|
      ensures t[i].start <= t[j].start
    {
      assert t[i] == if i < k then r[i] else if i == k then h else r[i - 1];
      assert t[j] == if j < k then r[j] else if j == k then h else r[j - 1];
    }
  }

  lemma TakeOne(hs: seq<Header>, i: nat)
    requires i < |hs|
    ensures multiset(hs[..i + 1]) == multiset(hs[..i]) + multiset{hs[i]}
  {
    assert hs[..i + 1] == hs[..i] + [hs[i]];
  }

  // qsort: some sorted arrangement.
  method SortHeaders(hs: seq<Header>) returns (r: seq<Header>)
    ensures ByStart(r) && multiset(r) == multiset(hs)
  {
    NoneByStart();
    hide ByStart;
    r := [];
    for i := 0 to |hs|
      invariant ByStart(r) && multiset(r) == multiset(hs[..i])
    {
      TakeOne(hs, i);
      r := PlaceHeader(r, hs[i]);
    }
    assert hs[..|hs|] == hs;
  }

  method PlaceHeader(r: seq<Header>, h: Header) returns (next: seq<Header>)
    requires ByStart(r)
    ensures ByStart(next) && multiset(next) == multiset(r) + multiset{h}
  {
    hide ByStart;
    var k := |r|;
    while k > 0 && r[k - 1].start > h.start
      invariant 0 <= k <= |r|
      invariant forall j :: k <= j < |r| ==> r[j].start > h.start
    {
      k := k - 1;
    }
    PutBetween(r, k, h);
    next := r[..k] + [h] + r[k..];
  }

  // The index holds every synthetic start, and of the native FDEs exactly those whose
  // start is not synthetic.
  lemma {:induction false} UnshadowedExact(syn: seq<Header>, nat_: seq<Header>, h: Header)
    ensures h in Unshadowed(syn, nat_) <==> h in nat_ && !HasStart(syn, h.start)
    decreases |nat_|
  {
    hide HasStart;
    if nat_ != [] {
      UnshadowedExact(syn, nat_[..|nat_| - 1], h);
      assert nat_ == nat_[..|nat_| - 1] + [nat_[|nat_| - 1]];
    }
  }

  // Every entry point covered by either list is in the index, and at most one kind of
  // entry per start.
  lemma IndexCovers(syn: seq<Header>, nat_: seq<Header>, all: seq<Header>, h: Header)
    requires multiset(all) == multiset(syn) + multiset(Unshadowed(syn, nat_))
    ensures h in all <==> h in syn || (h in nat_ && !HasStart(syn, h.start))
    ensures h in nat_ ==> HasStart(all, h.start)
  {
    UnshadowedExact(syn, nat_, h);
    hide Unshadowed;
    assert h in all <==> h in multiset(all);
    assert h in syn <==> h in multiset(syn);
    if h in nat_ && HasStart(syn, h.start) {
      var i :| 0 <= i < |syn| && syn[i].start == h.start;
      assert syn[i] in multiset(syn);
      assert syn[i] in multiset(all);
      assert syn[i] in all;
    }
  }
}
