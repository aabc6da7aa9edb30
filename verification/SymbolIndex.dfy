// The hash index over a Mach-O symbol table (macho_sym_index_build), the lookup
// through it, and the linear scan it replaces (lookup_macho_symbol_result).
module SymbolIndex {
  import opened Bits
  import opened CString
  import opened HashChain
  import Fnv

  // n_strx, n_type, n_sect, n_desc, n_value
  datatype Symbol = Symbol(strx: U32, kind: U8, sect: U8, desc: int, value: U64)

  // The string table is the first strsize bytes of what is mapped from its start on; a name
  // that starts in it may end after it.
  datatype Tables = Tables(syms: seq<Symbol>, strtab: seq<U8>, strsize: nat)

  type Table = t: Tables | t.strsize <= |t.strtab| witness Tables([], [], 0)

  const BUCKETS: int := 256 * 1024

  // A defined, non-debug symbol with its name in the string table: what the scan tests.
  predicate Scanned(t: Table, i: nat)
    requires i < |t.syms|
  {
    var s := t.syms[i];
    s.kind / 32 == 0 && s.kind / 2 % 8 == 7 && s.strx < t.strsize
  }

  // n_type from its parts: three stab bits, private external, the type, external. What is
  // looked at is a symbol that is no stab, is defined in a section (type 7) and has its
  // name in the string table.
  lemma ScannedParts(t: Table, i: nat, stab: nat, pext: nat, kind: nat, ext: nat)
    requires i < |t.syms| && stab < 8 && pext < 2 && kind < 8 && ext < 2
    requires t.syms[i].kind == stab * 32 + pext * 16 + kind * 2 + ext
    ensures Scanned(t, i) <==> stab == 0 && kind == 7 && t.syms[i].strx < t.strsize
  {
    DivModUnique(t.syms[i].kind, 2, stab * 16 + pext * 8 + kind, ext);
  }

  function Name(t: Table, i: nat): seq<U8>
    requires i < |t.syms| && Scanned(t, i)
  {
    NameAt(t.strtab, t.syms[i].strx)
  }

  // The index also skips string offset 0 and empty names.
  predicate Indexed(t: Table, i: nat)
    requires i < |t.syms|
  {
    Scanned(t, i) && t.syms[i].strx != 0 && Name(t, i) != []
  }

  function Bucket(name: seq<U8>): (b: int)
    ensures 0 <= b < BUCKETS
  {
    Fnv.Hash(name) % BUCKETS
  }

  ghost function BucketOf(t: Table, i: nat): int
    requires i < |t.syms|
  {
    if Indexed(t, i) then Bucket(Name(t, i)) else -1
  }

  ghost function BucketsOf(t: Table): seq<int> {
    seq(|t.syms|, i requires 0 <= i < |t.syms| => BucketOf(t, i))
  }

  // Which symbols the index, and the scan, take as a match for name.
  ghost function IndexHits(t: Table, name: seq<U8>): seq<bool> {
    seq(|t.syms|, i requires 0 <= i < |t.syms| => Indexed(t, i) && Name(t, i) == name)
  }

  ghost function ScanHits(t: Table, name: seq<U8>): seq<bool> {
    seq(|t.syms|, i requires 0 <= i < |t.syms| => Scanned(t, i) && Name(t, i) == name)
  }

  class Index {
    const table: Table
    const buckets: array<int>
    const chain: array<int>

    ghost predicate Valid()
      reads this, buckets, chain
    {
      && buckets.Length == BUCKETS && chain.Length == |table.syms|
      && Linked(buckets[..], chain[..], BucketsOf(table), |table.syms|)
    }

    // macho_sym_index_build
    constructor (t: Table)
      ensures Valid() && table == t
      ensures fresh(buckets) && fresh(chain)
    {
      table := t;
      buckets := new int[BUCKETS](i => -1);
      chain := new int[|t.syms|];
      new;
      ghost var bs := BucketsOf(t);
      LinkedNone(buckets[..], chain[..], bs);
      hide Fnv.Hash, Linked, NameAt, Scanned, Indexed;
      for i := 0 to |t.syms|
        invariant Linked(buckets[..], chain[..], bs, i)
      {
        ghost var heads, next := buckets[..], chain[..];
        if Indexed(t, i) {
          var b := Bucket(Name(t, i));
          LinkedOne(heads, next, bs, i);
          chain[i] := buckets[b];
          buckets[b] := i;
          assert chain[..] == next[i := heads[b]] && buckets[..] == heads[b := i];
        } else {
          LinkedSkip(heads, next, bs, i);
        }
      }
    }

    // The lookup through the index: the last match, or -1.
    method Find(name: seq<U8>) returns (r: int)
      requires Valid()
      ensures r == LastHit(IndexHits(table, name), |table.syms|)
    {
      hide Fnv.Hash, NameAt, Scanned, Indexed;
      ghost var bs, hits := BucketsOf(table), IndexHits(table, name);
      var b := Bucket(name);
      ghost var n := |table.syms|;
      Follow(bs, b, hits, n);
      r := buckets[b];
      while r >= 0
        invariant 0 <= n <= |bs| && r == Last(bs, b, n)
        invariant LastHit(hits, |bs|) == LastHit(hits, n)
        invariant LastHit(hits, n) == if r < 0 then -1 else if hits[r] then r else LastHit(hits, r)
        decreases r
      {
        IndexedIsScanned(table, r);
        if Name(table, r) == name {
          return;
        }
        n := r;
        Follow(bs, b, hits, n);
        r := chain[r];
      }
    }
  }

  lemma IndexedIsScanned(t: Table, i: nat)
    requires i < |t.syms|
    ensures Indexed(t, i) ==> Scanned(t, i)
  {
  }

  // The linear scan: the first match, or -1.
  method Scan(t: Table, name: seq<U8>) returns (r: int)
    ensures -1 <= r < |t.syms|
    ensures r >= 0 ==> ScanHits(t, name)[r] && forall i :: 0 <= i < r ==> !ScanHits(t, name)[i]
    ensures r < 0 ==> forall i :: 0 <= i < |t.syms| ==> !ScanHits(t, name)[i]
  {
    for i := 0 to |t.syms|
      invariant forall j :: 0 <= j < i ==> !ScanHits(t, name)[j]
    {
      if Scanned(t, i) && Name(t, i) == name {
        return i;
      }
    }
    r := -1;
  }

  // --- The two agree ---

  // The guard on names the index leaves out: the name is empty, or only symbols with
  // string offset 0 carry it.
  ghost predicate OnlyAtZero(t: Table, name: seq<U8>) {
    && (exists i :: 0 <= i < |t.syms| && ScanHits(t, name)[i])
    && (name == [] || forall i :: 0 <= i < |t.syms| && ScanHits(t, name)[i] ==> t.syms[i].strx == 0)
  }

  ghost function First(hit: seq<bool>, n: nat): (r: int)
    requires n <= |hit|
    ensures n <= r <= |hit|
    ensures r < |hit| ==> hit[r]
    ensures forall i :: n <= i < r ==> !hit[i]
    decreases |hit| - n
  {
    if n == |hit| || hit[n] then n else First(hit, n + 1)
  }

  // Both find the name, or neither does, unless the scan finds it only at offset 0 or
  // it is empty.
  lemma FoundAlike(t: Table, name: seq<U8>)
    ensures var found := LastHit(IndexHits(t, name), |t.syms|) >= 0;
            var scanned := exists i :: 0 <= i < |t.syms| && ScanHits(t, name)[i];
            (found <==> scanned) <==> !OnlyAtZero(t, name)
  {
    hide Scanned, NameAt;
    var (ih, sh) := (IndexHits(t, name), ScanHits(t, name));
    assert forall i :: 0 <= i < |t.syms| ==>
        (ih[i] <==> sh[i] && t.syms[i].strx != 0 && name != []);
    var r := LastHit(ih, |t.syms|);
    if r >= 0 {
      assert sh[r];
    }
  }

  // String offset 0 alone: the scan finds the name, the index does not.
  lemma ZeroOffsetMissed()
    ensures var t := Tables([Symbol(0, 0x0F, 1, 0, 0x1000)], [97, 0], 2);
            && OnlyAtZero(t, [97])
            && First(ScanHits(t, [97]), 0) == 0
            && LastHit(IndexHits(t, [97]), 1) == -1
  {
    var t := Tables([Symbol(0, 0x0F, 1, 0, 0x1000)], [97, 0], 2);
    NameFound(t.strtab, 0, 1);
    assert NameAt(t.strtab, 0) == [97];
    assert ScanHits(t, [97])[0] && !IndexHits(t, [97])[0];
  }

  // What the scan returns, or -1.
  ghost function ScanResult(t: Table, name: seq<U8>): int {
    var k := First(ScanHits(t, name), 0);
    if k < |t.syms| then k else -1
  }

  // The two return the same symbol, or both nothing, if and only if the scan finds
  // nothing, or its symbol is one the index keeps and no later match is.
  lemma SameExactly(t: Table, name: seq<U8>)
    ensures var k := First(ScanHits(t, name), 0);
            LastHit(IndexHits(t, name), |t.syms|) == ScanResult(t, name) <==>
            || k == |t.syms|
            || (name != [] && t.syms[k].strx != 0
                && forall i :: k < i < |t.syms| && ScanHits(t, name)[i] ==> t.syms[i].strx == 0)
  {
    hide Scanned, NameAt;
    var (ih, sh) := (IndexHits(t, name), ScanHits(t, name));
    assert forall i :: 0 <= i < |t.syms| ==>
        (ih[i] <==> sh[i] && t.syms[i].strx != 0 && name != []);
    var (r, k) := (LastHit(ih, |t.syms|), First(sh, 0));
    if r >= 0 {
      assert sh[r];
    }
  }

  // In particular for a name carried by one symbol.
  lemma SameWhenUnique(t: Table, name: seq<U8>, k: nat)
    requires k < |t.syms| && Indexed(t, k) && Name(t, k) == name
    requires forall i :: 0 <= i < |t.syms| && ScanHits(t, name)[i] ==> i == k
    ensures LastHit(IndexHits(t, name), |t.syms|) == k
    ensures First(ScanHits(t, name), 0) == k
  {
    hide NameAt, Scanned;
    assert ScanHits(t, name)[k] && t.syms[k].strx != 0 && name != [];
    SameExactly(t, name);
  }

  // With duplicates they differ: the index returns the later symbol, the scan the first.
  lemma DuplicatesDiffer()
    ensures var s := Symbol(1, 0x0F, 1, 0, 0x1000);
            var t := Tables([s, s.(value := 0x2000)], [0, 97, 0], 3);
            && LastHit(IndexHits(t, [97]), 2) == 1
            && First(ScanHits(t, [97]), 0) == 0
  {
    var s := Symbol(1, 0x0F, 1, 0, 0x1000);
    var t := Tables([s, s.(value := 0x2000)], [0, 97, 0], 3);
    NameFound(t.strtab, 1, 2);
    assert NameAt(t.strtab, 1) == [97];
    assert IndexHits(t, [97])[1] && ScanHits(t, [97])[0];
  }
}
