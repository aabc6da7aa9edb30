// Byte-addressed little-endian memory. An address that was never written reads as 0.
module Memory {
  import opened Bits

  type Mem = map<int, U8>

  function Byte(m: Mem, a: int): U8 {
    if a in m then m[a] else 0
  }

  // The little-endian value of the bytes [lo, hi).
  function LoadRange(m: Mem, lo: int, hi: int): nat
    decreases hi - lo
  {
    if hi <= lo then 0 else Byte(m, lo) + 0x100 * LoadRange(m, lo + 1, hi)
  }

  function StoreRange(m: Mem, lo: int, hi: int, v: nat): Mem
    decreases hi - lo
  {
    if hi <= lo then m else StoreRange(m[lo := v % 0x100], lo + 1, hi, v / 0x100)
  }

  function Load(m: Mem, a: int, n: nat): nat {
    LoadRange(m, a, a + n)
  }

  function Store(m: Mem, a: int, n: nat, v: nat): Mem {
    StoreRange(m, a, a + n, v)
  }

  // [a, a + n) and [b, b + k) share no byte.
  predicate Disjoint(a: int, n: int, b: int, k: int) {
    a + n <= b || b + k <= a
  }

  lemma Pow2Byte(n: nat)
    requires n > 0
    ensures Pow2(8 * n) == 0x100 * Pow2(8 * (n - 1))
  {
    Pow2Add(8, 8 * (n - 1));
    Pow2Eight();
  }

  lemma {:induction false} LoadBound(m: Mem, a: int, n: nat)
    ensures Load(m, a, n) < Pow2(8 * n)
    decreases n
  {
    if n != 0 {
      LoadBound(m, a + 1, n - 1);
      Pow2Byte(n);
    }
  }

  lemma {:induction false} StoreRangeElsewhere(m: Mem, lo: int, hi: int, v: nat, b: int)
    requires b < lo || hi <= b
    ensures Byte(StoreRange(m, lo, hi, v), b) == Byte(m, b)
    decreases hi - lo
  {
    if lo < hi {
      StoreRangeElsewhere(m[lo := v % 0x100], lo + 1, hi, v / 0x100, b);
    }
  }

  lemma StoreElsewhere(m: Mem, a: int, n: nat, v: nat, b: int)
    requires b < a || a + n <= b
    ensures Byte(Store(m, a, n, v), b) == Byte(m, b)
  {
    StoreRangeElsewhere(m, a, a + n, v, b);
  }

  lemma {:induction false} LoadRangeAgree(m: Mem, m': Mem, lo: int, hi: int)
    requires forall b :: lo <= b < hi ==> Byte(m, b) == Byte(m', b)
    ensures LoadRange(m, lo, hi) == LoadRange(m', lo, hi)
    decreases hi - lo
  {
    if lo < hi {
      LoadRangeAgree(m, m', lo + 1, hi);
    }
  }

  lemma LoadAgree(m: Mem, m': Mem, a: int, n: nat)
    requires forall b :: a <= b < a + n ==> Byte(m, b) == Byte(m', b)
    ensures Load(m, a, n) == Load(m', a, n)
  {
    LoadRangeAgree(m, m', a, a + n);
  }

  lemma LoadElsewhere(m: Mem, a: int, n: nat, v: nat, b: int, k: nat)
    requires Disjoint(a, n, b, k)
    ensures Load(Store(m, a, n, v), b, k) == Load(m, b, k)
  {
    forall c | b <= c < b + k
      ensures Byte(Store(m, a, n, v), c) == Byte(m, c)
    {
      StoreElsewhere(m, a, n, v, c);
    }
    LoadAgree(Store(m, a, n, v), m, b, k);
  }

  lemma {:induction false} LoadStored(m: Mem, a: int, n: nat, v: nat)
    ensures Load(Store(m, a, n, v), a, n) == v % Pow2(8 * n)
    decreases n
  {
    if n != 0 {
      var m' := m[a := v % 0x100];
      LoadStored(m', a + 1, n - 1, v / 0x100);
      StoreElsewhere(m', a + 1, n - 1, v / 0x100, a);
      ByteTimesMod(v, n);
    }
  }

  lemma Scaled(q: int, p: int)
    ensures 0x100 * (q * p) == q * (0x100 * p)
  {
  }

  lemma ByteTimesMod(v: nat, n: nat)
    requires n > 0
    ensures v % Pow2(8 * n) == v % 0x100 + 0x100 * ((v / 0x100) % Pow2(8 * (n - 1)))
  {
    var p := Pow2(8 * (n - 1));
    Pow2Byte(n);
    hide Pow2;
    var h := v / 0x100;
    var q, r := h / p, h % p;
    assert h == q * p + r;
    Scaled(q, p);
    DivModUnique(v, 0x100 * p, q, v % 0x100 + 0x100 * r);
  }

  // A store writes the value's low bytes and nothing of the rest.
  lemma {:induction false} StoreMod(m: Mem, a: int, n: nat, v: nat)
    ensures Store(m, a, n, v) == Store(m, a, n, v % Pow2(8 * n))
    decreases n
  {
    if n != 0 {
      ByteTimesMod(v, n);
      var w := v % Pow2(8 * n);
      assert w % 0x100 == v % 0x100 && w / 0x100 == (v / 0x100) % Pow2(8 * (n - 1));
      StoreMod(m[a := v % 0x100], a + 1, n - 1, v / 0x100);
    }
  }
}
