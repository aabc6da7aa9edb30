// The bind-slot registry of resolver.c: a table of at most 32768 entries with hash
// chains, kept as a map from slot address to what was bound there.
module BindSlots {
  import opened Bits
  import opened Options
  import opened HashChain

  const CAPACITY: nat := 32768
  const BUCKETS: int := 65536

  // context, sym_name, lookup_name, dylib_name, source_kind and source_path, together
  datatype Info = Info(resolved: U64, context: string, symbol: string, lookup: string, dylib: string, source: string)

  // slot_addr_hash
  function Bucket(a: U64): (b: int)
    ensures 0 <= b < BUCKETS
  {
    var h1 := Xor64(a, a / 0x2_0000_0000);
    var h2 := Wrap(h1 * 0xff51afd7ed558ccd);
    var h3 := Xor64(h2, h2 / 0x2_0000_0000);
    h3 % TWO32 % BUCKETS
  }

  ghost function BucketsOf(slots: seq<U64>): seq<int> {
    seq(|slots|, i requires 0 <= i < |slots| => Bucket(slots[i]))
  }

  ghost function Hits(slots: seq<U64>, a: U64): seq<bool> {
    seq(|slots|, i requires 0 <= i < |slots| => slots[i] == a)
  }

  // Registering in the abstract: a new key is dropped only when the map is full.
  function Registered(m: map<U64, Info>, a: U64, info: Info): map<U64, Info> {
    if a == 0 || (a !in m && |m| >= CAPACITY) then m else m[a := info]
  }

  function Lookup(m: map<U64, Info>, a: U64): Option<Info> {
    if a != 0 && a in m then Some(m[a]) else None
  }

  ghost predicate Distinct(slots: seq<U64>) {
    forall i, j :: 0 <= i < j < |slots| ==> slots[i] != slots[j]
  }

  // The map of the first n entries, a later entry of a key over an earlier one.
  ghost function MapOf(slots: seq<U64>, infos: seq<Info>, n: nat): map<U64, Info>
    requires n <= |slots| && |slots| == |infos|
  {
    if n == 0 then map[] else MapOf(slots, infos, n - 1)[slots[n - 1] := infos[n - 1]]
  }

  lemma {:induction false} MapHolds(slots: seq<U64>, infos: seq<Info>, n: nat)
    requires n <= |slots| && |slots| == |infos| && Distinct(slots)
    ensures var m := MapOf(slots, infos, n);
            && |m| == n
            && (forall i :: 0 <= i < n ==> slots[i] in m && m[slots[i]] == infos[i])
            && (forall a :: a in m ==> exists i :: 0 <= i < n && slots[i] == a)
  {
    if n > 0 {
      MapHolds(slots, infos, n - 1);
    }
  }

  lemma {:induction false} MapPrefix(slots: seq<U64>, infos: seq<Info>, a: U64, info: Info, n: nat)
    requires n <= |slots| && |slots| == |infos|
    ensures MapOf(slots + [a], infos + [info], n) == MapOf(slots, infos, n)
  {
    if n > 0 {
      MapPrefix(slots, infos, a, info, n - 1);
    }
  }

  lemma MapUpdate(slots: seq<U64>, infos: seq<Info>, k: nat, info: Info)
    requires k < |slots| && |slots| == |infos| && Distinct(slots)
    ensures MapOf(slots, infos[k := info], |slots|) == MapOf(slots, infos, |slots|)[slots[k] := info]
  {
    var (n, now) := (|slots|, infos[k := info]);
    MapHolds(slots, infos, n);
    MapHolds(slots, now, n);
    var (m, m') := (MapOf(slots, infos, n), MapOf(slots, now, n));
    assert forall i :: 0 <= i < n ==> m'[slots[i]] == m[slots[k] := info][slots[i]];
  }

  class Registry {
    var slots: seq<U64>     // bind_slot_registry[i].slot_addr
    var infos: seq<Info>    // the rest of bind_slot_registry[i]
    var next: seq<int>      // bind_slot_registry[i].hash_next
    var heads: seq<int>     // bind_slot_hash_slot
    var ready: bool         // hash_initialized

    ghost predicate Valid()
      reads this
    {
      && |slots| == |infos| == |next| <= CAPACITY
      && Distinct(slots) && 0 !in slots
      && |heads| == BUCKETS
      && (ready ==> Linked(heads, next, BucketsOf(slots), |slots|))
      && (!ready ==> slots == [])
    }

    ghost function Contents(): map<U64, Info>
      reads this
      requires Valid()
    {
      MapOf(slots, infos, |slots|)
    }

    constructor ()
      ensures Valid() && Contents() == map[]
    {
      slots, infos, next, ready := [], [], [], false;
      heads := seq(BUCKETS, i => 0);
    }

    // bind_slot_hash_rebuild
    method Rebuild()
      requires |slots| == |infos| == |next| <= CAPACITY && |heads| == BUCKETS
      modifies this`heads, this`next
      ensures |next| == |slots| && |heads| == BUCKETS
      ensures Linked(heads, next, BucketsOf(slots), |slots|)
    {
      hide Bucket;
      heads := seq(BUCKETS, i => -1);
      ghost var bs := BucketsOf(slots);
      LinkedNone(heads, next, bs);
      hide Linked;
      for i := 0 to |slots|
        invariant |next| == |slots| && |heads| == BUCKETS
        invariant Linked(heads, next, bs, i)
      {
        LinkedOne(heads, next, bs, i);
        var bucket := Bucket(slots[i]);
        next := next[i := heads[bucket]];
        heads := heads[bucket := i];
      }
    }

    // bind_slot_find: the entry of a, or -1.
    method Find(a: U64) returns (r: int)
      requires Valid()
      modifies this`heads, this`next, this`ready
      ensures Valid() && ready && Contents() == old(Contents())
      ensures -1 <= r < |slots|
      ensures r >= 0 ==> slots[r] == a
      ensures r < 0 ==> a !in slots
    {
      hide Bucket, Linked, MapOf;
      if !ready {
        ready := true;
        Rebuild();
      }
      r := Search(a);
    }

    // The walk along one bucket's links.
    method Search(a: U64) returns (r: int)
      requires Valid() && ready
      ensures -1 <= r < |slots|
      ensures r >= 0 ==> slots[r] == a
      ensures r < 0 ==> a !in slots
    {
      hide Bucket, Distinct, Linked, Last, LastHit;
      ghost var bs, hits, n := BucketsOf(slots), Hits(slots, a), |slots|;
      var b := Bucket(a);
      Follow(bs, b, hits, n);
      HeadIs(heads, next, bs, n, b);
      r := heads[b];
      while r >= 0
        invariant 0 <= n <= |bs| && r == Last(bs, b, n)
        invariant LastHit(hits, |bs|) == LastHit(hits, n)
        invariant LastHit(hits, n) == if r < 0 then -1 else if hits[r] then r else LastHit(hits, r)
        decreases r
      {
        if slots[r] == a {
          return;
        }
        n := r;
        Follow(bs, b, hits, n);
        LinkIs(heads, next, bs, |slots|, r);
        r := next[r];
      }
      forall i | 0 <= i < |slots|
        ensures slots[i] != a
      {
        assert !hits[i];
      }
    }

    // register_bind_slot
    method Register(a: U64, info: Info)
      requires Valid()
      modifies this
      ensures Valid() && Contents() == Registered(old(Contents()), a, info)
    {
      if a == 0 {
        return;
      }
      var k := Find(a);
      MapHolds(slots, infos, |slots|);
      hide Bucket, Linked;
      if k < 0 {
        assert a !in Contents();
        if |slots| >= CAPACITY {
          return;
        }
        Append(a, info);
      } else {
        assert a in Contents();
        MapUpdate(slots, infos, k, info);
        infos := infos[k := info];
      }
    }

    method Append(a: U64, info: Info)
      requires Valid() && ready && a != 0 && a !in slots && |slots| < CAPACITY
      modifies this
      ensures Valid() && Contents() == old(Contents())[a := info]
    {
      hide Bucket, Linked, Distinct, MapOf, BucketsOf;
      GrownLinks(slots, heads, next, a);
      GrownMap(slots, infos, a, info);
      var bucket := Bucket(a);
      next := next + [heads[bucket]];
      heads := heads[bucket := |slots|];
      slots, infos := slots + [a], infos + [info];
    }

    // resolver_lookup_bind_slot
    method LookUp(a: U64) returns (r: Option<Info>)
      requires Valid()
      modifies this`heads, this`next, this`ready
      ensures Valid() && Contents() == old(Contents())
      ensures r == Lookup(Contents(), a)
    {
      if a == 0 {
        return None;
      }
      var k := Find(a);
      MapHolds(slots, infos, |slots|);
      r := if k < 0 then None else Some(infos[k]);
    }
  }

  lemma LinkedAgree(heads: seq<int>, next: seq<int>, bs: seq<int>, bs': seq<int>, n: nat)
    requires n == |bs| <= |bs'| && bs == bs'[..n]
    requires |next| == n && Linked(heads, next, bs, n)
    ensures Linked(heads, next + [-1], bs', n)
  {
    forall b, k | 0 <= k <= n
      ensures Last(bs, b, k) == Last(bs', b, k)
    {
    }
  }

  lemma GrownMap(slots: seq<U64>, infos: seq<Info>, a: U64, info: Info)
    requires |slots| == |infos| && Distinct(slots) && a !in slots
    ensures Distinct(slots + [a])
    ensures MapOf(slots + [a], infos + [info], |slots| + 1) == MapOf(slots, infos, |slots|)[a := info]
  {
    MapPrefix(slots, infos, a, info, |slots|);
  }

  lemma GrownLinks(slots: seq<U64>, heads: seq<int>, next: seq<int>, a: U64)
    requires |slots| == |next| && |heads| == BUCKETS
    requires Linked(heads, next, BucketsOf(slots), |slots|)
    ensures Linked(heads[Bucket(a) := |slots|], next + [heads[Bucket(a)]], BucketsOf(slots + [a]), |slots| + 1)
  {
    hide Bucket, BucketsOf, Linked;
    var (n, bs) := (|slots|, BucketsOf(slots + [a]));
    BucketsGrow(slots, a);
    LinkedAgree(heads, next, BucketsOf(slots), bs, n);
    LinkedOne(heads, next + [-1], bs, n);
    Replaced(next, heads[Bucket(a)]);
  }

  lemma BucketsGrow(slots: seq<U64>, a: U64)
    ensures var bs := BucketsOf(slots + [a]);
            |bs| == |slots| + 1 && |BucketsOf(slots)| == |slots|
            && BucketsOf(slots) == bs[..|slots|] && bs[|slots|] == Bucket(a)
  {
    hide Bucket;
  }

  lemma Replaced(next: seq<int>, x: int)
    ensures (next + [-1])[|next| := x] == next + [x]
  {
  }

  // --- Runs of registrations ---

  datatype Entry = Entry(slot: U64, info: Info)

  function AllRegistered(m: map<U64, Info>, es: seq<Entry>): map<U64, Info>
    decreases |es|
  {
    if es == [] then m else AllRegistered(Registered(m, es[0].slot, es[0].info), es[1..])
  }

  // After any run, however long, a registered key holds the information of its last
  // registration; it can be absent only from a full registry.
  lemma {:induction false} LatestWins(m: map<U64, Info>, es: seq<Entry>, k: nat)
    requires |m| <= CAPACITY && k < |es| && es[k].slot != 0
    requires forall j :: k < j < |es| ==> es[j].slot != es[k].slot
    ensures var (r, a) := (AllRegistered(m, es), es[k].slot);
            Lookup(r, a) == Some(es[k].info) || (a !in r && |r| == CAPACITY)
    decreases |es|
  {
    var m' := Registered(m, es[0].slot, es[0].info);
    if k > 0 {
      LatestWins(m', es[1..], k - 1);
    } else if es[0].slot in m' {
      Kept(m', es[1..], es[0].slot);
    } else {
      FullStays(m', es[1..]);
      StaysOut(m', es[1..], es[0].slot);
    }
  }

  lemma {:induction false} StaysOut(m: map<U64, Info>, es: seq<Entry>, a: U64)
    requires a !in m && forall j :: 0 <= j < |es| ==> es[j].slot != a
    ensures a !in AllRegistered(m, es)
    decreases |es|
  {
    if es != [] {
      StaysOut(Registered(m, es[0].slot, es[0].info), es[1..], a);
    }
  }

  // A run that cannot fill the registry loses nothing.
  lemma NothingDropped(m: map<U64, Info>, es: seq<Entry>, k: nat)
    requires |m| + |es| <= CAPACITY && k < |es| && es[k].slot != 0
    requires forall j :: k < j < |es| ==> es[j].slot != es[k].slot
    ensures Lookup(AllRegistered(m, es), es[k].slot) == Some(es[k].info)
  {
    LatestWins(m, es, k);
    if es[k].slot !in AllRegistered(m, es) {
      SizeBelow(m, es, k);
      assert false;
    }
  }

  // A run that leaves one of its keys out adds fewer keys than it has entries.
  lemma {:induction false} SizeBelow(m: map<U64, Info>, es: seq<Entry>, k: nat)
    requires k < |es| && es[k].slot !in AllRegistered(m, es)
    ensures |AllRegistered(m, es)| < |m| + |es|
    decreases |es|
  {
    var m' := Registered(m, es[0].slot, es[0].info);
    if k > 0 {
      SizeBelow(m', es[1..], k - 1);
    } else {
      KeysStay(m', es[1..]);
      SizeAtMost(m', es[1..]);
    }
  }

  lemma {:induction false} SizeAtMost(m: map<U64, Info>, es: seq<Entry>)
    ensures |AllRegistered(m, es)| <= |m| + |es|
    decreases |es|
  {
    if es != [] {
      SizeAtMost(Registered(m, es[0].slot, es[0].info), es[1..]);
    }
  }

  lemma {:induction false} Kept(m: map<U64, Info>, es: seq<Entry>, a: U64)
    requires a in m
    requires forall j :: 0 <= j < |es| ==> es[j].slot != a
    ensures a in AllRegistered(m, es) && AllRegistered(m, es)[a] == m[a]
    decreases |es|
  {
    if es != [] {
      Kept(Registered(m, es[0].slot, es[0].info), es[1..], a);
    }
  }

  // The registry never grows past its capacity, and a key is missing after a run only
  // if it was never registered or the registry filled up first.
  lemma {:induction false} DroppedOnlyWhenFull(m: map<U64, Info>, es: seq<Entry>, a: U64)
    requires |m| <= CAPACITY && a != 0 && a !in m
    ensures |AllRegistered(m, es)| <= CAPACITY
    ensures (exists j :: 0 <= j < |es| && es[j].slot == a) && a !in AllRegistered(m, es)
            ==> |AllRegistered(m, es)| == CAPACITY
    decreases |es|
  {
    if es != [] {
      var m' := Registered(m, es[0].slot, es[0].info);
      if a !in m' {
        DroppedOnlyWhenFull(m', es[1..], a);
        if es[0].slot == a {
          FullStays(m', es[1..]);
        }
      } else {
        KeysStay(m', es[1..]);
        Bounded(m', es[1..]);
      }
    }
  }

  lemma {:induction false} KeysStay(m: map<U64, Info>, es: seq<Entry>)
    ensures m.Keys <= AllRegistered(m, es).Keys
    decreases |es|
  {
    if es != [] {
      KeysStay(Registered(m, es[0].slot, es[0].info), es[1..]);
    }
  }

  lemma {:induction false} Bounded(m: map<U64, Info>, es: seq<Entry>)
    requires |m| <= CAPACITY
    ensures |AllRegistered(m, es)| <= CAPACITY
    decreases |es|
  {
    if es != [] {
      Bounded(Registered(m, es[0].slot, es[0].info), es[1..]);
    }
  }

  lemma {:induction false} FullStays(m: map<U64, Info>, es: seq<Entry>)
    requires |m| == CAPACITY
    ensures |AllRegistered(m, es)| == CAPACITY
    decreases |es|
  {
    if es != [] {
      var m' := Registered(m, es[0].slot, es[0].info);
      if m' != m {
        assert m'.Keys == m.Keys;
      }
      assert |m'| == |m'.Keys| && |m| == |m.Keys|;
      FullStays(m', es[1..]);
    }
  }
}
