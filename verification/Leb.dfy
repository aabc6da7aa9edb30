// LEB128 (section 7.6 of DWARF 4): the writers of eh_frame.c and the readers of
// eh_frame.c and resolver.c. A reader stops after the first byte with a clear top
// bit, or at the end of the data.
module Leb {
  import opened Bits

  const TWO63: int := 0x8000_0000_0000_0000

  type I64 = n: int | -0x8000_0000_0000_0000 <= n < 0x8000_0000_0000_0000

  // The two's complement reading of the low 64 bits of x.
  function AsSigned(x: int): I64 {
    var u := x % TWO64;
    if u < TWO63 then u else u - TWO64
  }

  // --- What a number at position p denotes, with no bound on its size ---

  // One past the last byte of the number that starts at p.
  function LebEnd(s: seq<U8>, p: nat): (q: nat)
    requires p <= |s|
    ensures p <= q <= |s|
    ensures p < |s| ==> p < q
    decreases |s| - p
  {
    if p == |s| then p else if s[p] < 128 then p + 1 else LebEnd(s, p + 1)
  }

  function UlebValue(s: seq<U8>, p: nat): nat
    requires p <= |s|
    decreases |s| - p
  {
    if p == |s| then 0 else if s[p] < 128 then s[p] else s[p] - 128 + 128 * UlebValue(s, p + 1)
  }

  // Bit 6 of the last byte read is the sign.
  function SlebValue(s: seq<U8>, p: nat): int
    requires p <= |s|
    decreases |s| - p
  {
    if p == |s| then 0
    else
      var b := s[p] % 128;
      if s[p] < 128 || p + 1 == |s| then (if b < 64 then b else b - 128)
      else b + 128 * SlebValue(s, p + 1)
  }

  // --- Writers ---

  function Uleb(v: nat): (r: seq<U8>)
    ensures |r| >= 1
  {
    if v < 128 then [v] else [v % 128 + 128] + Uleb(v / 128)
  }

  // v % 128 and v / 128 round towards minus infinity: the low seven bits and the
  // arithmetic shift.
  function Sleb(v: int): (r: seq<U8>)
    ensures |r| >= 1
    decreases if v >= 0 then v else -v
  {
    var b, w := v % 128, v / 128;
    if (w == 0 && b < 64) || (w == -1 && b >= 64) then [b] else [b + 128] + Sleb(w)
  }

  method WriteUleb(buf: seq<U8>, value: U64) returns (r: seq<U8>)
    ensures r == buf + Uleb(value)
  {
    var v := value;
    r := buf;
    var more := true;
    ghost var tail := Uleb(value);
    while more
      invariant 0 <= v < TWO64
      invariant tail == if more then Uleb(v) else []
      invariant r + tail == buf + Uleb(value)
      decreases more, v
    {
      var byte: U8 := v % 128;
      v := v / 128;
      if v != 0 {
        byte := byte + 128;
      }
      assert tail[0] == byte;
      r, tail := r + [byte], tail[1..];
      more := v != 0;
    }
  }

  method WriteSleb(buf: seq<U8>, value: I64) returns (r: seq<U8>)
    ensures r == buf + Sleb(value)
  {
    var v: int := value;
    r := buf;
    var more := true;
    ghost var tail := Sleb(value);
    while more
      invariant tail == if more then Sleb(v) else []
      invariant r + tail == buf + Sleb(value)
      decreases more, if v >= 0 then v else -v
    {
      var byte: U8 := v % 128;
      v := v / 128;
      if (v == 0 && byte < 64) || (v == -1 && byte >= 64) {
        more := false;
      } else {
        byte := byte + 128;
      }
      assert tail[0] == byte;
      r, tail := r + [byte], tail[1..];
    }
  }

  // --- Readers ---

  // base + x * Pow2(shift), where the accumulator holds the bits below shift.
  ghost predicate ReadSoFar(acc: int, shift: nat, whole: int, rest: int) {
    acc % TWO64 == acc && acc == (whole - Pow2(shift) * rest) % TWO64
  }

  lemma ShiftBySeven(shift: nat)
    ensures Pow2(shift + 7) == 128 * Pow2(shift)
  {
    Pow2Values();
    Pow2Add(shift, 7);
  }

  lemma Accumulate(p: int, b: int, rest: int, whole: int)
    ensures ((whole - p * (b + 128 * rest)) % TWO64 + b * p) % TWO64 == (whole - (128 * p) * rest) % TWO64
  {
    var u := whole - p * (b + 128 * rest);
    assert whole - (128 * p) * rest == b * p + u by {
      assert p * (b + 128 * rest) == p * b + p * (128 * rest);
    }
    SumMod(b * p, u, TWO64);
  }

  lemma ReadOne(acc: int, shift: nat, whole: int, rest: int, b: int, rest': int)
    requires ReadSoFar(acc, shift, whole, rest)
    requires rest == b + 128 * rest'
    ensures ReadSoFar((acc + b * Pow2(shift)) % TWO64, shift + 7, whole, rest')
  {
    ShiftBySeven(shift);
    hide Pow2;
    Accumulate(Pow2(shift), b, rest', whole);
    ModTwice(acc + b * Pow2(shift));
  }

  lemma ModTwice(x: int)
    ensures 0 <= x % TWO64 < TWO64 && x % TWO64 % TWO64 == x % TWO64
  {
  }

  lemma ReadNone(whole: int)
    ensures ReadSoFar(0, 0, whole, whole)
  {
  }

  lemma ReadZero(acc: int, shift: nat, whole: int)
    requires ReadSoFar(acc, shift, whole, 0)
    ensures acc == whole % TWO64
  {
    assert Pow2(shift) * 0 == 0;
  }

  // read_uleb128 and eh_read_uleb128. Bits shifted out of the 64-bit result are lost.
  method ReadUleb(s: seq<U8>, start: nat) returns (result: U64, p: nat)
    requires start <= |s|
    ensures p == LebEnd(s, start)
    ensures result == UlebValue(s, start) % TWO64
  {
    var shift := 0;
    p, result := start, 0;
    ghost var whole, rest := UlebValue(s, start), UlebValue(s, start);
    ReadNone(whole);
    hide Pow2, ReadSoFar;
    while p < |s|
      invariant start <= p <= |s|
      invariant LebEnd(s, p) == LebEnd(s, start)
      invariant rest == UlebValue(s, p)
      invariant ReadSoFar(result, shift, whole, rest)
    {
      var byte := s[p];
      p := p + 1;
      ghost var rest' := if byte < 128 then 0 else UlebValue(s, p);
      ReadOne(result, shift, whole, rest, byte % 128, rest');
      result := (result + byte % 128 * Pow2(shift)) % TWO64;
      if byte < 128 {
        ReadZero(result, shift + 7, whole);
        return;
      }
      shift := shift + 7;
      rest := rest';
    }
    ReadZero(result, shift, whole);
  }

  // The sign bits above shift: -(1 << shift), when some of them are in range.
  function SignExtended(acc: int, shift: nat, negative: bool): int {
    if shift < 64 && negative then (acc - Pow2(shift)) % TWO64 else acc
  }

  lemma ReadAll(acc: int, shift: nat, whole: int, negative: bool)
    requires ReadSoFar(acc, shift, whole, if negative then -1 else 0)
    ensures SignExtended(acc, shift, negative) == whole % TWO64
  {
    var p: int := Pow2(shift);
    if negative {
      assert whole - p * -1 == whole + p;
      if shift >= 64 {
        Pow2Values();
        Pow2Add(64, shift - 64);
        var k := Pow2(shift - 64);
        assert whole + p == (whole / TWO64 + k) * TWO64 + whole % TWO64;
        DivModUnique(whole + p, TWO64, whole / TWO64 + k, whole % TWO64);
      } else {
        SumMod(-p, whole + p, TWO64);
      }
    }
  }

  // What is left of the number after its byte at p, given whether that byte ends it.
  ghost function SlebRest(s: seq<U8>, p: nat): int
    requires p < |s|
  {
    if s[p] < 128 || p + 1 == |s| then (if s[p] % 128 < 64 then 0 else -1) else SlebValue(s, p + 1)
  }

  // read_sleb128 of resolver.c.
  method ReadSleb(s: seq<U8>, start: nat) returns (result: I64, p: nat)
    requires start <= |s|
    ensures p == LebEnd(s, start)
    ensures result == AsSigned(SlebValue(s, start))
  {
    var shift, acc, byte := 0, 0, 0;
    p := start;
    ghost var whole, rest := SlebValue(s, start), SlebValue(s, start);
    ReadNone(whole);
    hide Pow2, ReadSoFar, SignExtended;
    var more := true;
    while p < |s| && more
      invariant start <= p <= |s|
      invariant more ==> LebEnd(s, p) == LebEnd(s, start)
      invariant !more ==> p == LebEnd(s, start)
      invariant p < |s| && more ==> rest == SlebValue(s, p)
      invariant p == |s| || !more ==> rest == if byte % 128 >= 64 then -1 else 0
      invariant ReadSoFar(acc, shift, whole, rest)
      decreases |s| - p
    {
      byte := s[p];
      ghost var rest' := SlebRest(s, p);
      ReadOne(acc, shift, whole, rest, byte % 128, rest');
      p := p + 1;
      acc := (acc + byte % 128 * Pow2(shift)) % TWO64;
      shift := shift + 7;
      rest := rest';
      if byte < 128 {
        more := false;
      }
    }
    ReadAll(acc, shift, whole, byte % 128 >= 64);
    ModTwice(whole);
    result := AsSigned(SignExtended(acc, shift, byte % 128 >= 64));
  }

  // eh_read_sleb128: a do-while whose byte starts out uninitialised; stale is what it
  // happens to hold, and matters only when there is nothing to read.
  method EhReadSleb(s: seq<U8>, start: nat, stale: U8) returns (result: I64, p: nat)
    requires start <= |s|
    ensures p == LebEnd(s, start)
    ensures start < |s| ==> result == AsSigned(SlebValue(s, start))
  {
    var shift, acc, byte := 0, 0, stale;
    p := start;
    ghost var whole, rest := SlebValue(s, start), SlebValue(s, start);
    ReadNone(whole);
    hide Pow2, ReadSoFar, SignExtended;
    var more := true;
    while more
      invariant start <= p <= |s|
      invariant more ==> LebEnd(s, p) == LebEnd(s, start)
      invariant !more ==> p == LebEnd(s, start)
      invariant p < |s| && more ==> rest == SlebValue(s, p)
      invariant start < |s| && (p == |s| || !more) ==> rest == if byte % 128 >= 64 then -1 else 0
      invariant ReadSoFar(acc, shift, whole, rest)
      decreases more, |s| - p
    {
      if p >= |s| {
        break;
      }
      byte := s[p];
      ghost var rest' := SlebRest(s, p);
      ReadOne(acc, shift, whole, rest, byte % 128, rest');
      p := p + 1;
      acc := (acc + byte % 128 * Pow2(shift)) % TWO64;
      shift := shift + 7;
      rest := rest';
      more := byte >= 128;
    }
    if start < |s| {
      ReadAll(acc, shift, whole, byte % 128 >= 64);
      ModTwice(whole);
    }
    result := AsSigned(SignExtended(acc, shift, byte % 128 >= 64));
  }

  // --- Round trips, inside any surrounding bytes ---

  lemma {:induction false} UlebRoundTrip(a: seq<U8>, v: nat, b: seq<U8>)
    ensures UlebValue(a + Uleb(v) + b, |a|) == v
    ensures LebEnd(a + Uleb(v) + b, |a|) == |a| + |Uleb(v)|
    decreases v
  {
    var s := a + Uleb(v) + b;
    assert s[|a|] == Uleb(v)[0];
    if v >= 128 {
      var a' := a + [v % 128 + 128];
      assert s == a' + Uleb(v / 128) + b;
      UlebRoundTrip(a', v / 128, b);
    }
  }

  lemma {:induction false} SlebRoundTrip(a: seq<U8>, v: int, b: seq<U8>)
    ensures SlebValue(a + Sleb(v) + b, |a|) == v
    ensures LebEnd(a + Sleb(v) + b, |a|) == |a| + |Sleb(v)|
    decreases if v >= 0 then v else -v
  {
    var s := a + Sleb(v) + b;
    assert s[|a|] == Sleb(v)[0];
    var d, w := v % 128, v / 128;
    if !((w == 0 && d < 64) || (w == -1 && d >= 64)) {
      var a' := a + [d + 128];
      assert s == a' + Sleb(w) + b;
      SlebRoundTrip(a', w, b);
    }
  }

  // A value below 128^n takes at most n bytes.
  lemma {:induction false} UlebLength(v: nat, n: nat)
    requires n > 0 && v < Pow2(7 * n)
    ensures |Uleb(v)| <= n
    decreases n
  {
    Pow2Values();
    if v >= 128 {
      Pow2Add(7, 7 * (n - 1));
      assert Pow2(0) == 1;
      UlebLength(v / 128, n - 1);
    }
  }

  // --- Numbers inside larger records ---

  lemma FetchUleb(a: seq<U8>, h: U8, v: U64, b: seq<U8>)
    ensures var s := a + ([h] + Uleb(v)) + b;
            && s[|a|] == h && |a| + 1 <= |s|
            && UlebValue(s, |a| + 1) == v && LebEnd(s, |a| + 1) == |a| + 1 + |Uleb(v)|
  {
    hide LebEnd, UlebValue, Uleb;
    UlebRoundTrip(a + [h], v, b);
    assert a + ([h] + Uleb(v)) + b == (a + [h]) + Uleb(v) + b;
  }

  lemma FetchSleb(a: seq<U8>, h: U8, v: I64, b: seq<U8>)
    ensures var s := a + ([h] + Sleb(v)) + b;
            && s[|a|] == h && |a| + 1 <= |s|
            && SlebValue(s, |a| + 1) == v && LebEnd(s, |a| + 1) == |a| + 1 + |Sleb(v)|
  {
    hide LebEnd, SlebValue, Sleb;
    SlebRoundTrip(a + [h], v, b);
    assert a + ([h] + Sleb(v)) + b == (a + [h]) + Sleb(v) + b;
  }

  lemma Regroup(a: seq<U8>, x: seq<U8>, u: seq<U8>, v: seq<U8>, b: seq<U8>)
    ensures a + (x + u + v) + b == a + (x + u) + (v + b)
    ensures a + (x + u + v) + b == (a + x + u) + v + b
  {
  }

  lemma Cut(s: seq<U8>, p: nat, x: seq<U8>, y: seq<U8>)
    requires p <= |s| && s[p..] == x + y
    ensures p + |x| <= |s| && s == s[..p] + x + y && s[p + |x|..] == y
  {
    assert s == s[..p] + s[p..];
    assert s[p + |x|..] == s[p..][|x|..];
  }
}
