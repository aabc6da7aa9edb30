// Fixed-width unsigned words as bounded integers, with C's bitwise operators
// defined bit by bit.
module Bits {

  type U8 = n: int | 0 <= n < 0x100
  type U32 = n: int | 0 <= n < 0x1_0000_0000
  type U64 = n: int | 0 <= n < 0x1_0000_0000_0000_0000

  const TWO32: int := 0x1_0000_0000
  const TWO64: int := 0x1_0000_0000_0000_0000

  // Unsigned 64-bit arithmetic wraps around.
  function Wrap(x: int): U64 {
    x % TWO64
  }

  function Pow2(n: nat): (r: nat)
    ensures r > 0
  {
    if n == 0 then 1 else 2 * Pow2(n - 1)
  }

  lemma {:induction false} Pow2Add(a: nat, b: nat)
    ensures Pow2(a + b) == Pow2(a) * Pow2(b)
  {
    if a == 0 {
    } else {
      Pow2Add(a - 1, b);
      assert Pow2(a + b) == 2 * Pow2(a - 1 + b);
      assert 2 * (Pow2(a - 1) * Pow2(b)) == (2 * Pow2(a - 1)) * Pow2(b);
    }
  }

  lemma Pow2Eight()
    ensures Pow2(8) == 0x100
  {
    assert Pow2(4) == 16;
    Pow2Add(4, 4);
  }

  lemma Pow2Seven()
    ensures Pow2(7) == 128
  {
    assert Pow2(3) == 8 && Pow2(4) == 16;
    Pow2Add(4, 3);
  }

  lemma Pow2Values()
    ensures Pow2(7) == 128 && Pow2(8) == 0x100 && Pow2(16) == 0x1_0000
    ensures Pow2(32) == TWO32 && Pow2(64) == TWO64
  {
    Pow2Eight();
    Pow2Seven();
    hide Pow2;
    Pow2Add(8, 8);
    Pow2Add(16, 16);
    Pow2Add(32, 32);
  }

  // The quotient and remainder of n by d are the only pair with 0 <= r < d.
  lemma DivModUnique(n: int, d: int, q: int, r: int)
    requires 0 <= r < d
    requires n == q * d + r
    ensures n / d == q && n % d == r
  {
    var q', r' := n / d, n % d;
    assert (q - q') * d == r' - r;
    assert q - q' >= 1 ==> (q - q') * d >= d;
    assert q - q' <= -1 ==> (q - q') * d <= -d;
  }

  // Reducing by a multiple of w first does not change the residue by w.
  lemma ModOfMod(a: int, w: int, k: int)
    requires w > 0 && k > 0
    ensures k * w > 0 && (a % (k * w)) % w == a % w
  {
    var q, r := a / (k * w), a % (k * w);
    assert a == (q * k) * w + r by {
      assert q * (k * w) == (q * k) * w;
    }
    DivModUnique(a, w, q * k + r / w, r % w);
  }

  lemma SumMod(a: int, b: int, w: int)
    requires w > 0
    ensures (a + b % w) % w == (a + b) % w
  {
    var q := b / w;
    assert a + b == (a + b % w) + q * w;
    var t := a + b % w;
    assert a + b == (t / w + q) * w + t % w;
    DivModUnique(a + b, w, t / w + q, t % w);
  }

  datatype BitOp = And | Or | Xor | AndNot {
    predicate Apply(a: bool, b: bool) {
      match this
      case And => a && b
      case Or => a || b
      case Xor => a != b
      case AndNot => a && !b
    }
  }

  // x op y on all bits; every operator above gives 0 on two 0 bits.
  function Bitwise(op: BitOp, x: nat, y: nat): nat
    decreases x + y
  {
    if x == 0 && y == 0 then 0
    else (if op.Apply(x % 2 == 1, y % 2 == 1) then 1 else 0) + 2 * Bitwise(op, x / 2, y / 2)
  }

  lemma {:induction false} BitwiseBound(op: BitOp, n: nat, x: nat, y: nat)
    requires x < Pow2(n) && y < Pow2(n)
    ensures Bitwise(op, x, y) < Pow2(n)
    decreases n
  {
    if n != 0 {
      BitwiseBound(op, n - 1, x / 2, y / 2);
    }
  }

  function Xor64(x: U64, y: U64): U64 {
    Pow2Values();
    BitwiseBound(Xor, 64, x, y);
    Bitwise(Xor, x, y)
  }

  function Or64(x: U64, y: U64): U64 {
    Pow2Values();
    BitwiseBound(Or, 64, x, y);
    Bitwise(Or, x, y)
  }

  function Xor32(x: U32, y: U32): U32 {
    Pow2Values();
    BitwiseBound(Xor, 32, x, y);
    Bitwise(Xor, x, y)
  }

  function Xor8(x: U8, y: U8): U8 {
    Pow2Values();
    BitwiseBound(Xor, 8, x, y);
    Bitwise(Xor, x, y)
  }

  lemma HalfMod(k: nat, x: nat)
    requires k > 0
    ensures (x % Pow2(k)) % 2 == x % 2
    ensures (x % Pow2(k)) / 2 == (x / 2) % Pow2(k - 1)
  {
    var p := Pow2(k - 1);
    var h, b := x / 2, x % 2;
    var t, r := h / p, h % p;
    assert x == t * (2 * p) + (2 * r + b) by {
      assert h == t * p + r;
      assert x == 2 * h + b;
      assert 2 * (t * p) == t * (2 * p);
    }
    DivModUnique(x, 2 * p, t, 2 * r + b);
  }

  lemma Halve(op: BitOp, x: nat, y: nat)
    ensures Bitwise(op, x, y) % 2 == (if op.Apply(x % 2 == 1, y % 2 == 1) then 1 else 0)
    ensures Bitwise(op, x, y) / 2 == Bitwise(op, x / 2, y / 2)
  {
  }

  // A bitwise operator never mixes columns: its low k bits depend on the
  // operands' low k bits alone.
  lemma {:induction false} BitwiseLow(op: BitOp, k: nat, x: nat, y: nat)
    ensures Bitwise(op, x, y) % Pow2(k) == Bitwise(op, x % Pow2(k), y % Pow2(k))
    decreases k
  {
    if k != 0 {
      HalfMod(k, x);
      HalfMod(k, y);
      HalfMod(k, Bitwise(op, x, y));
      Halve(op, x, y);
      Halve(op, x % Pow2(k), y % Pow2(k));
      BitwiseLow(op, k - 1, x / 2, y / 2);
    }
  }

  lemma {:induction false} XorSelfInverse(x: nat, y: nat)
    ensures Bitwise(Xor, Bitwise(Xor, x, y), y) == x
    ensures Bitwise(Xor, y, x) == Bitwise(Xor, x, y)
    decreases x + y
  {
    if x != 0 || y != 0 {
      XorSelfInverse(x / 2, y / 2);
      Halve(Xor, x, y);
      Halve(Xor, Bitwise(Xor, x, y), y);
    }
  }

  // OR of a value with one whose set bits all lie above it is their sum.
  lemma {:induction false} OrDisjoint(k: nat, x: nat, y: nat)
    requires x < Pow2(k)
    ensures Bitwise(Or, x, y * Pow2(k)) == x + y * Pow2(k)
    decreases k
  {
    if k == 0 {
      assert y * Pow2(k) == y;
      OrZero(y);
    } else {
      var z := y * Pow2(k - 1);
      assert y * Pow2(k) == 2 * z by {
        assert y * (2 * Pow2(k - 1)) == 2 * (y * Pow2(k - 1));
      }
      OrDisjoint(k - 1, x / 2, y);
      Halve(Or, x, 2 * z);
    }
  }

  lemma {:induction false} XorDisjoint(k: nat, x: nat, y: nat)
    requires x < Pow2(k)
    ensures Bitwise(Xor, x, y * Pow2(k)) == x + y * Pow2(k)
    decreases k
  {
    if k == 0 {
      XorZero(y);
    } else {
      var p := Pow2(k - 1);
      assert y * Pow2(k) == 2 * (y * p);
      XorDisjoint(k - 1, x / 2, y);
      hide Pow2;
      Halve(Xor, x, 2 * (y * p));
      assert x == 2 * (x / 2) + x % 2;
    }
  }

  lemma {:induction false} OrZero(y: nat)
    ensures Bitwise(Or, 0, y) == y
  {
    if y != 0 {
      OrZero(y / 2);
    }
  }

  lemma {:induction false} XorZero(y: nat)
    ensures Bitwise(Xor, 0, y) == y
  {
    if y != 0 {
      XorZero(y / 2);
    }
  }
}
