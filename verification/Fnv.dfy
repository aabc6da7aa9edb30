// FNV-1a with 64 bits, as fnv1a64 of startup_cache.c and macho_name_hash of
// resolver.c compute it.
module Fnv {
  import opened Bits

  const BASIS: int := 1469598103934665603
  const PRIME: int := 1099511628211

  function Step(h: U64, b: U8): U64 {
    Wrap(Xor64(h, b) * PRIME)
  }

  function HashFrom(h: U64, s: seq<U8>): U64
    decreases |s|
  {
    if s == [] then h else HashFrom(Step(h, s[0]), s[1..])
  }

  function Hash(s: seq<U8>): U64 {
    HashFrom(BASIS, s)
  }

  method Fnv1a64(s: seq<U8>) returns (hash: U64)
    ensures hash == Hash(s)
  {
    hash := BASIS;
    for i := 0 to |s|
      invariant HashFrom(hash, s[i..]) == Hash(s)
    {
      hash := Step(hash, s[i]);
      assert s[i..][1..] == s[i + 1..];
    }
  }

  // The hash of nothing; from 0, a byte is multiplied by the prime; a byte equal to the
  // state clears it.
  lemma KnownHashes(b: U8)
    ensures Hash([]) == 1469598103934665603
    ensures HashFrom(0, [b]) == b * 1099511628211 % 0x1_0000_0000_0000_0000
    ensures HashFrom(b, [b]) == 0
  {
    XorZero(b);
    XorSelfInverse(0, b);
    hide Bitwise;
    assert [b][1..] == [];
    assert forall h: U64 :: HashFrom(h, []) == h;
  }

  // PRIME is odd, hence has an inverse modulo 2^64.
  const INVERSE: int := 0xce965057aff6957b
  const CARRY: int := 887285111055

  lemma Invertible(x: U64)
    ensures Wrap(Wrap(x * PRIME) * INVERSE) == x
  {
    var p := x * PRIME;
    SumMod(0, p, TWO64);
    var q := p / TWO64;
    assert Wrap(p) == p - q * TWO64;
    assert Wrap(p) * INVERSE == x * (PRIME * INVERSE) - (q * INVERSE) * TWO64 by {
      assert (p - q * TWO64) * INVERSE == p * INVERSE - q * TWO64 * INVERSE;
    }
    assert PRIME * INVERSE == 1 + CARRY * TWO64;
    DivModUnique(Wrap(p) * INVERSE, TWO64, x * CARRY - q * INVERSE, x);
  }

  lemma MultiplyInjective(x: U64, y: U64)
    requires Wrap(x * PRIME) == Wrap(y * PRIME)
    ensures x == y
  {
    Invertible(x);
    Invertible(y);
  }

  // Distinct states stay distinct under one byte, and distinct bytes split a state.
  lemma StepInjective(h: U64, k: U64, b: U8, c: U8)
    requires Step(h, b) == Step(k, c)
    ensures b == c ==> h == k
    ensures h == k ==> b == c
  {
    MultiplyInjective(Xor64(h, b), Xor64(k, c));
    XorSelfInverse(h, b);
    XorSelfInverse(k, c);
    XorSelfInverse(b, h);
    XorSelfInverse(c, k);
  }

  lemma {:induction false} HashInjective(h: U64, k: U64, s: seq<U8>)
    requires HashFrom(h, s) == HashFrom(k, s)
    ensures h == k
    decreases |s|
  {
    if s != [] {
      HashInjective(Step(h, s[0]), Step(k, s[0]), s[1..]);
      StepInjective(h, k, s[0], s[0]);
    }
  }

  // Changing exactly one byte always changes the hash.
  lemma {:induction false} OneByteChange(h: U64, s: seq<U8>, i: nat, b: U8)
    requires i < |s| && s[i] != b
    ensures HashFrom(h, s[i := b]) != HashFrom(h, s)
    decreases |s|
  {
    hide Step;
    var t := s[i := b];
    if i == 0 {
      assert t[1..] == s[1..];
      if HashFrom(h, t) == HashFrom(h, s) {
        HashInjective(Step(h, b), Step(h, s[0]), s[1..]);
        StepInjective(h, h, b, s[0]);
      }
    } else {
      assert t[1..] == s[1..][i - 1 := b];
      OneByteChange(Step(h, s[0]), s[1..], i - 1, b);
    }
  }
}
