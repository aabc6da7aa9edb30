// Hash buckets with chains that link each element to the previous one of its bucket,
// as the symbol index and the bind-slot registry of resolver.c keep them.
module HashChain {

  // The greatest i < n with bs[i] == b, or -1. bs[i] is the bucket of element i, or
  // -1 for an element that is not linked.
  function Last(bs: seq<int>, b: int, n: nat): (r: int)
    requires n <= |bs|
    ensures -1 <= r < n
    ensures r >= 0 ==> bs[r] == b
    ensures forall i :: r < i < n ==> bs[i] != b
  {
    if n == 0 then -1 else if bs[n - 1] == b then n - 1 else Last(bs, b, n - 1)
  }

  // Bucket heads and links after the first n elements.
  ghost predicate Linked(heads: seq<int>, next: seq<int>, bs: seq<int>, n: nat)
    requires n <= |bs|
  {
    && n <= |next|
    && (forall i :: 0 <= i < n ==> bs[i] < |heads|)
    && (forall b :: 0 <= b < |heads| ==> heads[b] == Last(bs, b, n))
    && (forall i :: 0 <= i < n && bs[i] >= 0 ==> next[i] == Last(bs, bs[i], i))
  }

  // The greatest i < n with hit[i], or -1.
  function LastHit(hit: seq<bool>, n: nat): (r: int)
    requires n <= |hit|
    ensures -1 <= r < n
    ensures r >= 0 ==> hit[r]
    ensures forall i :: r < i < n ==> !hit[i]
  {
    if n == 0 then -1 else if hit[n - 1] then n - 1 else LastHit(hit, n - 1)
  }

  // When every hit is in bucket b, following the links of b misses none.
  lemma {:induction false} Follow(bs: seq<int>, b: int, hit: seq<bool>, n: nat)
    requires n <= |bs| && |hit| == |bs|
    requires forall i :: 0 <= i < n && hit[i] ==> bs[i] == b
    ensures var c := Last(bs, b, n);
            LastHit(hit, n) == if c < 0 then -1 else if hit[c] then c else LastHit(hit, c)
    decreases n
  {
    if n > 0 && bs[n - 1] != b {
      Follow(bs, b, hit, n - 1);
    }
  }

  // What a bucket head and a link hold.
  lemma HeadIs(heads: seq<int>, next: seq<int>, bs: seq<int>, n: nat, b: nat)
    requires n <= |bs| && Linked(heads, next, bs, n) && b < |heads|
    ensures heads[b] == Last(bs, b, n)
  {
  }

  lemma LinkIs(heads: seq<int>, next: seq<int>, bs: seq<int>, n: nat, i: nat)
    requires n <= |bs| && Linked(heads, next, bs, n) && i < n && bs[i] >= 0
    ensures i < |next| && next[i] == Last(bs, bs[i], i)
  {
  }

  // Empty buckets, one more linked element, one more unlinked element.
  lemma LinkedNone(heads: seq<int>, next: seq<int>, bs: seq<int>)
    requires forall b :: 0 <= b < |heads| ==> heads[b] == -1
    ensures Linked(heads, next, bs, 0)
  {
  }

  lemma LinkedOne(heads: seq<int>, next: seq<int>, bs: seq<int>, n: nat)
    requires n < |bs| && n < |next| && Linked(heads, next, bs, n)
    requires 0 <= bs[n] < |heads|
    ensures Linked(heads[bs[n] := n], next[n := heads[bs[n]]], bs, n + 1)
  {
  }

  lemma LinkedSkip(heads: seq<int>, next: seq<int>, bs: seq<int>, n: nat)
    requires n < |bs| && n < |next| && Linked(heads, next, bs, n)
    requires bs[n] < 0
    ensures Linked(heads, next, bs, n + 1)
  {
  }
}
