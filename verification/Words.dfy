// Little-endian words inside a byte sequence.
module Words {
  import opened Bits

  function Le(v: nat, n: nat): (r: seq<U8>)
    ensures |r| == n
  {
    if n == 0 then [] else [v % 0x100] + Le(v / 0x100, n - 1)
  }

  // The n bytes at p; bytes past the end read as 0.
  function Word(s: seq<U8>, p: nat, n: nat): nat
    decreases n
  {
    if n == 0 then 0 else (if p < |s| then s[p] else 0) + 0x100 * Word(s, p + 1, n - 1)
  }

  lemma {:induction false} WordBound(s: seq<U8>, p: nat, n: nat)
    ensures Word(s, p, n) < Pow2(8 * n)
    decreases n
  {
    if n != 0 {
      WordBound(s, p + 1, n - 1);
      Pow2Add(8, 8 * (n - 1));
      Pow2Eight();
    }
  }

  // Reading depends on the bytes read alone.
  lemma {:induction false} WordAgree(s: seq<U8>, p: nat, t: seq<U8>, q: nat, n: nat)
    requires p + n <= |s| && q + n <= |t| && s[p..p + n] == t[q..q + n]
    ensures Word(s, p, n) == Word(t, q, n)
    decreases n
  {
    if n != 0 {
      assert s[p] == s[p..p + n][0] == t[q..q + n][0] == t[q];
      assert s[p + 1..p + n] == s[p..p + n][1..] && t[q + 1..q + n] == t[q..q + n][1..];
      WordAgree(s, p + 1, t, q + 1, n - 1);
    }
  }

  lemma {:induction false} WordWritten(v: nat, n: nat)
    requires v < Pow2(8 * n)
    ensures Word(Le(v, n), 0, n) == v
    decreases n
  {
    if n != 0 {
      Pow2Add(8, 8 * (n - 1));
      Pow2Eight();
      WordWritten(v / 0x100, n - 1);
      var s := Le(v, n);
      WordAgree(s, 1, Le(v / 0x100, n - 1), 0, n - 1);
    }
  }

  // Conversely the bytes of a word are determined by its value.
  lemma {:induction false} LeOfWord(s: seq<U8>, p: nat, n: nat)
    requires p + n <= |s|
    ensures Le(Word(s, p, n), n) == s[p..p + n]
    decreases n
  {
    if n != 0 {
      LeOfWord(s, p + 1, n - 1);
      DivModUnique(Word(s, p, n), 0x100, Word(s, p + 1, n - 1), s[p]);
      assert s[p..p + n] == [s[p]] + s[p + 1..p + n];
    }
  }

  // --- Parts of a record ---

  // x stands at position p of s.
  ghost predicate At(s: seq<U8>, p: nat, x: seq<U8>) {
    p + |x| <= |s| && s[p..p + |x|] == x
  }

  lemma WholeAt(s: seq<U8>)
    ensures At(s, 0, s)
  {
  }

  lemma AtParts(s: seq<U8>, p: nat, a: seq<U8>, b: seq<U8>)
    requires At(s, p, a + b)
    ensures At(s, p, a) && At(s, p + |a|, b)
  {
    var x := s[p..p + |a + b|];
    assert x[..|a|] == a && x[|a|..] == b;
  }

  lemma AtBound(s: seq<U8>, p: nat, x: seq<U8>)
    requires At(s, p, x)
    ensures p + |x| <= |s|
  {
  }

  lemma AtByte(s: seq<U8>, p: nat, b: U8)
    requires At(s, p, [b])
    ensures p < |s| && s[p] == b
  {
    assert s[p..p + 1][0] == b;
  }

  lemma AtWord(s: seq<U8>, p: nat, v: nat, n: nat)
    requires At(s, p, Le(v, n)) && v < Pow2(8 * n)
    ensures Word(s, p, n) == v
  {
    assert Le(v, n)[0..n] == Le(v, n);
    WordAgree(s, p, Le(v, n), 0, n);
    WordWritten(v, n);
  }
}
