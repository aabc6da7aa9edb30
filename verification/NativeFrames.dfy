// Native .eh_frame sections written with any augmentation and any fixed-size pointer
// encoding, as the parser of eh_frame.c reads them.
module NativeFrames {
  import opened Bits
  import opened Leb
  import opened Words
  import opened CString
  import opened EhParse
  import opened EhRoundTrip

  lemma UlebAt(s: seq<U8>, p: nat, v: nat)
    requires At(s, p, Uleb(v))
    ensures UlebValue(s, p) == v && LebEnd(s, p) == p + |Uleb(v)| <= |s|
  {
    hide Uleb, UlebValue, LebEnd;
    var q := p + |Uleb(v)|;
    assert s == s[..p] + Uleb(v) + s[q..];
    UlebRoundTrip(s[..p], v, s[q..]);
  }

  lemma SlebAt(s: seq<U8>, p: nat, v: int)
    requires At(s, p, Sleb(v))
    ensures LebEnd(s, p) == p + |Sleb(v)| <= |s|
  {
    hide Sleb, SlebValue, LebEnd;
    var q := p + |Sleb(v)|;
    assert s == s[..p] + Sleb(v) + s[q..];
    SlebRoundTrip(s[..p], v, s[q..]);
  }

  // --- CIEs with augmentation data ---

  // What follows the z of the augmentation string, each letter with its data.
  datatype Letter = LsdaEncoding(enc: U8) | Personality(enc: U8, ptr: seq<U8>) | FdeEncoding(enc: U8)

  // A personality pointer takes the bytes its encoding says.
  predicate LettersOk(ls: seq<Letter>) {
    forall i :: 0 <= i < |ls| && ls[i].Personality? ==> |ls[i].ptr| == Size(ls[i].enc)
  }

  function Char(l: Letter): U8 {
    match l
    case LsdaEncoding(_) => 0x4c
    case Personality(_, _) => 0x50
    case FdeEncoding(_) => 0x52
  }

  function Data(l: Letter): (r: seq<U8>)
    ensures |r| > 0
  {
    if l.Personality? then [l.enc] + l.ptr else [l.enc]
  }

  function Chars(ls: seq<Letter>): (r: seq<U8>)
    ensures |r| == |ls|
  {
    seq(|ls|, i requires 0 <= i < |ls| => Char(ls[i]))
  }

  function AllData(ls: seq<Letter>): seq<U8> {
    if ls == [] then [] else Data(ls[0]) + AllData(ls[1..])
  }

  // The encoding of FDE pointers: that of the first R, absolute without one.
  function PointerEncoding(ls: seq<Letter>): U8 {
    if ls == [] then 0 else if ls[0].FdeEncoding? then ls[0].enc else PointerEncoding(ls[1..])
  }

  lemma {:induction false} LettersRead(d: seq<U8>, k: nat, p: nat, end: nat, ls: seq<Letter>)
    requires LettersOk(ls) && k + |ls| < |d| && d[k..k + |ls|] == Chars(ls) && d[k + |ls|] == 0
    requires At(d, p, AllData(ls)) && p + |AllData(ls)| == end <= |d|
    ensures AugEncoding(d, k, p, end) == PointerEncoding(ls)
    decreases |ls|
  {
    hide Size, At, AugEncoding, Data;
    if ls == [] {
      NoLetters(d, k, p, end);
    } else {
      var (l, rest) := (ls[0], ls[1..]);
      LettersTail(d, k, ls);
      AtParts(d, p, Data(l), AllData(rest));
      FirstData(d, p, l);
      OneLetter(d, k, p, end, l);
      LettersRead(d, k + 1, p + |Data(l)|, end, rest);
    }
  }

  lemma NoLetters(d: seq<U8>, k: nat, p: nat, end: nat)
    requires k < |d| && d[k] == 0 && end <= |d|
    ensures AugEncoding(d, k, p, end) == 0
  {
  }

  lemma LettersTail(d: seq<U8>, k: nat, ls: seq<Letter>)
    requires ls != [] && LettersOk(ls) && k + |ls| < |d| && d[k..k + |ls|] == Chars(ls)
    ensures d[k] == Char(ls[0]) && d[k + 1..k + |ls|] == Chars(ls[1..]) && LettersOk(ls[1..])
    ensures ls[0].Personality? ==> |ls[0].ptr| == Size(ls[0].enc)
  {
    hide Size;
    assert d[k] == d[k..k + |ls|][0];
    assert d[k + 1..k + |ls|] == d[k..k + |ls|][1..];
  }

  lemma OneLetter(d: seq<U8>, k: nat, p: nat, end: nat, l: Letter)
    requires k < |d| && end <= |d| && d[k] == Char(l) && p + |Data(l)| <= end && d[p] == l.enc
    requires l.Personality? ==> |l.ptr| == Size(l.enc)
    ensures AugEncoding(d, k, p, end) == if l.FdeEncoding? then l.enc else AugEncoding(d, k + 1, p + |Data(l)|, end)
  {
    hide Size;
    if l.Personality? {
      NoPointer(p + 1, end, l.enc);
    }
    hide SkipPtr;
  }

  lemma FirstData(d: seq<U8>, p: nat, l: Letter)
    requires At(d, p, Data(l))
    ensures p < |d| && d[p] == l.enc
  {
    assert d[p..p + |Data(l)|][0] == l.enc;
  }

  lemma NoPointer(p: nat, end: nat, enc: U8)
    ensures p + Size(enc) <= end ==> SkipPtr(p, end, enc) == p + Size(enc)
  {
  }

  // version, letters, code and data alignment, return column, initial instructions
  datatype Cie = Cie(version: U8, letters: seq<Letter>, code: nat, data: int, ret: nat, instructions: seq<U8>)

  predicate CieOk(c: Cie) {
    LettersOk(c.letters) && (c.version == 1 ==> c.ret < 0x100) && |AllData(c.letters)| < TWO64
  }

  function RetBytes(c: Cie): seq<U8>
    requires CieOk(c)
  {
    if c.version == 1 then [c.ret] else Uleb(c.ret)
  }

  function CieHeadBytes(c: Cie): seq<U8> {
    [0, 0, 0, 0, c.version, 0x7a] + Chars(c.letters) + [0]
  }

  function CieBytes(c: Cie): seq<U8>
    requires CieOk(c)
  {
    CieHeadBytes(c) + Uleb(c.code) + Sleb(c.data) + RetBytes(c) + Uleb(|AllData(c.letters)|) + AllData(c.letters)
    + c.instructions
  }

  // The parts of the data, each where it stands.
  lemma CiePlaces(c: Cie)
    requires CieOk(c)
    ensures var (d, n) := (CieBytes(c), 7 + |c.letters|);
            var p1 := n + |Uleb(c.code)|;
            var p2 := p1 + |Sleb(c.data)|;
            var p3 := p2 + |RetBytes(c)|;
            && At(d, 0, CieHeadBytes(c)) && At(d, n, Uleb(c.code)) && At(d, p1, Sleb(c.data)) && At(d, p2, RetBytes(c))
            && At(d, p3, Uleb(|AllData(c.letters)|))
            && At(d, p3 + |Uleb(|AllData(c.letters)|)|, AllData(c.letters))
  {
    hide Uleb, Sleb, RetBytes, AllData, At, CieHeadBytes;
    HeadLength(c);
    var d := CieBytes(c);
    var (h, a, b, e, f, g) :=
      (CieHeadBytes(c), Uleb(c.code), Sleb(c.data), RetBytes(c), Uleb(|AllData(c.letters)|), AllData(c.letters));
    WholeAt(d);
    AtParts(d, 0, h + a + b + e + f + g, c.instructions);
    AtParts(d, 0, h + a + b + e + f, g);
    AtParts(d, 0, h + a + b + e, f);
    AtParts(d, 0, h + a + b, e);
    AtParts(d, 0, h + a, b);
    AtParts(d, 0, h, a);
  }

  lemma HeadLength(c: Cie)
    ensures |CieHeadBytes(c)| == 7 + |c.letters|
  {
  }

  lemma HeadRead(d: seq<U8>, c: Cie)
    requires At(d, 0, CieHeadBytes(c))
    ensures var n := 6 + |c.letters|;
            && |d| > n && d[4] == c.version && d[5] == 0x7a && d[n] == 0 && d[6..n] == Chars(c.letters)
            && NameEnd(d, 5) == n
  {
    var (h, n) := (CieHeadBytes(c), 6 + |c.letters|);
    assert d[..n + 1] == h;
    assert d[4] == h[4] && d[5] == h[5] && d[n] == h[n];
    assert d[6..n] == d[..n + 1][6..n] == h[6..n];
    forall i | 5 <= i < n
      ensures d[i] != 0
    {
      assert d[i] == h[i];
    }
    NameFound(d, 5, n);
  }

  lemma RetEnd(d: seq<U8>, p: nat, c: Cie)
    requires CieOk(c) && At(d, p, RetBytes(c))
    ensures p + |RetBytes(c)| <= |d|
    ensures (if c.version == 1 then Min(p + 1, |d|) else LebEnd(d, p)) == p + |RetBytes(c)|
  {
    if c.version != 1 {
      UlebAt(d, p, c.ret);
    }
  }

  // For any version, alignments and list of letters, the parser finds the encoding the
  // first R announces, and the end of the augmentation data.
  lemma CieRead(c: Cie)
    requires CieOk(c)
    ensures HasZ(CieBytes(c)) && CieEncoding(CieBytes(c)) == PointerEncoding(c.letters)
  {
    hide Uleb, Sleb, RetBytes, AllData, At, CieHeadBytes, CieBytes, LebEnd, UlebValue, NameEnd;
    var (d, n) := (CieBytes(c), 7 + |c.letters|);
    CiePlaces(c);
    var p1 := n + |Uleb(c.code)|;
    var p2 := p1 + |Sleb(c.data)|;
    var p3 := p2 + |RetBytes(c)|;
    var p4 := p3 + |Uleb(|AllData(c.letters)|)|;
    HeadRead(d, c);
    UlebAt(d, n, c.code);
    SlebAt(d, p1, c.data);
    RetEnd(d, p2, c);
    UlebAt(d, p3, |AllData(c.letters)|);
    AtBound(d, p4, AllData(c.letters));
    assert AugLengthAt(d) == p3;
    WrapSmall(|AllData(c.letters)|);
    assert AugEnd(d) == p4 + |AllData(c.letters)|;
    LettersRead(d, 6, p4, AugEnd(d), c.letters);
  }

  lemma WrapSmall(n: nat)
    requires n < TWO64
    ensures Wrap(n) == n
  {
  }

  // --- FDEs in a given pointer encoding ---

  // wide: the 64-bit form of the length
  datatype NativeFde = NativeFde(wide: bool, start: U64, range: U64, aug: seq<U8>, cfi: seq<U8>)

  // The number to write in encoding enc so that it is read as x modulo 2^64.
  function Number(enc: U8, x: int): int {
    if enc % 16 >= 10 then AsSigned(x) else Wrap(x)
  }

  lemma NumberMeans(enc: U8, x: int, y: int)
    ensures Wrap(Number(enc, x) + y) == Wrap(x + y)
  {
    var u := x % TWO64;
    SumMod(y, x, TWO64);
    if Number(enc, x) == u - TWO64 {
      var z := y + u;
      DivModUnique(z - TWO64, TWO64, z / TWO64 - 1, z % TWO64);
    }
  }

  // What a start is written as at position `at`: pc-relative encodings count from there.
  function StartNumber(env: Mapping, enc: U8, at: nat, start: U64): int {
    Number(enc, start - if enc / 16 == 1 then env.base + at else 0)
  }

  // A direct encoding of fixed size that has room for both numbers.
  predicate Writable(env: Mapping, enc: U8, at: nat, f: NativeFde) {
    && enc < 128 && Size(enc) > 0
    && InEncoding(enc, StartNumber(env, enc, at, f.start)) && InEncoding(enc, Number(enc, f.range))
  }

  function HeadSize(wide: bool): nat {
    if wide then 12 else 4
  }

  function Head(wide: bool, n: nat): (r: seq<U8>)
    ensures |r| == HeadSize(wide)
  {
    if wide then Le(0xffff_ffff, 4) + Le(n, 8) else Le(n, 4)
  }

  function Operands(env: Mapping, enc: U8, at: nat, f: NativeFde): seq<U8> {
    var n := Size(enc);
    Le(StartNumber(env, enc, at, f.start) % Pow2(8 * n), n) + Le(Number(enc, f.range) % Pow2(8 * n), n)
  }

  function AugBytes(z: bool, aug: seq<U8>): seq<U8> {
    if z then Uleb(|aug|) + aug else []
  }

  // The FDE at p of the CIE at c, after its length.
  function Body(env: Mapping, enc: U8, z: bool, c: nat, p: nat, f: NativeFde): seq<U8>
    requires c <= p
  {
    var start := p + HeadSize(f.wide);
    Le(start - c, 4) + Operands(env, enc, start + 4, f) + AugBytes(z, f.aug) + f.cfi
  }

  function Fde(env: Mapping, enc: U8, z: bool, c: nat, p: nat, f: NativeFde): seq<U8>
    requires c <= p
  {
    Head(f.wide, |Body(env, enc, z, c, p, f)|) + Body(env, enc, z, c, p, f)
  }

  // What the parser should find.
  function Found(p: nat, size: nat, f: NativeFde): seq<Entry>
    requires |f.cfi| <= size
  {
    if f.start == 0 then [] else [Entry(f.start, f.range, p, p + size - |f.cfi|, Wrap(|f.cfi|))]
  }

  lemma BodySize(env: Mapping, enc: U8, z: bool, c: nat, p: nat, f: NativeFde)
    requires c <= p
    ensures |Body(env, enc, z, c, p, f)| == 4 + 2 * Size(enc) + |AugBytes(z, f.aug)| + |f.cfi|
    ensures |Fde(env, enc, z, c, p, f)| == HeadSize(f.wide) + |Body(env, enc, z, c, p, f)|
  {
    hide Le, AugBytes, Size, Pow2;
  }

  // The parts of the FDE, each where it stands.
  lemma FdePlaces(env: Mapping, s: seq<U8>, enc: U8, z: bool, c: nat, p: nat, f: NativeFde)
    requires c <= p && At(s, p, Fde(env, enc, z, c, p, f))
    ensures var (start, n, body) := (p + HeadSize(f.wide), Size(enc), Body(env, enc, z, c, p, f));
            && At(s, p, Head(f.wide, |body|)) && At(s, start, Le(start - c, 4))
            && At(s, start + 4, Le(StartNumber(env, enc, start + 4, f.start) % Pow2(8 * n), n))
            && At(s, start + 4 + n, Le(Number(enc, f.range) % Pow2(8 * n), n))
            && At(s, start + 4 + 2 * n, AugBytes(z, f.aug))
            && start + |body| <= |s|
  {
    hide Le, At, Head, AugBytes, Size, Pow2, StartNumber, Number, HeadSize;
    var (start, n, body) := (p + HeadSize(f.wide), Size(enc), Body(env, enc, z, c, p, f));
    var ops := Operands(env, enc, start + 4, f);
    AtBound(s, p, Fde(env, enc, z, c, p, f));
    AtParts(s, p, Head(f.wide, |body|), body);
    AtParts(s, start, Le(start - c, 4) + ops + AugBytes(z, f.aug), f.cfi);
    AtParts(s, start, Le(start - c, 4) + ops, AugBytes(z, f.aug));
    AtParts(s, start, Le(start - c, 4), ops);
    AtParts(s, start + 4, Le(StartNumber(env, enc, start + 4, f.start) % Pow2(8 * n), n),
            Le(Number(enc, f.range) % Pow2(8 * n), n));
  }

  lemma ValueRead(s: seq<U8>, p: nat, end: nat, enc: U8, v: int)
    requires Size(enc) > 0 && p + Size(enc) <= end && InEncoding(enc, v)
    requires At(s, p, Le(v % Pow2(8 * Size(enc)), Size(enc)))
    ensures ReadValue(s, p, end, enc) == Reading(Wrap(v), p + Size(enc))
  {
    hide Operand, At, Pow2, Le;
    OperandRead(s, p, enc, v);
  }

  lemma AugSkipped(s: seq<U8>, p: nat, end: nat, aug: seq<U8>)
    requires At(s, p, AugBytes(true, aug)) && p + |AugBytes(true, aug)| <= end <= |s| && |aug| < TWO64
    ensures p < end && SkipAug(s[..end], p) == p + |AugBytes(true, aug)|
  {
    hide Uleb, UlebValue, LebEnd;
    var t := s[..end];
    AtParts(s, p, Uleb(|aug|), aug);
    assert t[p..p + |Uleb(|aug|)|] == s[p..p + |Uleb(|aug|)|];
    UlebAt(t, p, |aug|);
  }

  // One FDE, in any such encoding, with or without augmentation data, in either form.
  lemma FdeRead(env: Mapping, s: seq<U8>, enc: U8, z: bool, c: nat, p: nat, f: NativeFde)
    requires c <= p && At(s, p, Fde(env, enc, z, c, p, f)) && p + |Fde(env, enc, z, c, p, f)| < LIMIT
    requires c <= |s| && CieEncoding(CieAt(s, c)) == enc && HasZ(CieAt(s, c)) == z
    requires Writable(env, enc, p + HeadSize(f.wide) + 4, f)
    ensures var size := |Fde(env, enc, z, c, p, f)|;
            && |f.cfi| <= size && p + HeadSize(f.wide) <= p + size <= |s|
            && FdeAt(env, s, p, p + HeadSize(f.wide), p + size) == Found(p, size, f)
  {
    hide *;
    var (start, n, size) := (p + HeadSize(f.wide), Size(enc), |Fde(env, enc, z, c, p, f)|);
    var end := p + size;
    HeadSmall(f.wide);
    Limits();
    BodySize(env, enc, z, c, p, f);
    FdePlaces(env, s, enc, z, c, p, f);
    CanWrite(env, enc, start + 4, f);
    BackRead(s, start, start - c);
    StartRead(env, s, start + 4, end, enc, f);
    ValueRead(s, start + 4 + n, end, enc, Number(enc, f.range));
    NumberMeans(enc, f.range, 0);
    RangeIs(f.range);
    var cfi := start + 4 + 2 * n + |AugBytes(z, f.aug)|;
    if z {
      AugSmall(f.aug);
      AugSkipped(s, start + 4 + 2 * n, end, f.aug);
    } else {
      NoAug(f.aug);
    }
    FdeAtIs(env, s, p, start, end, start - c, enc, z, f.start, f.range, start + 4 + n, start + 4 + 2 * n, cfi);
    FoundIs(p, size, f, cfi);
  }

  lemma Limits()
    ensures LIMIT < TWO32 < TWO64
  {
  }

  lemma HeadSmall(wide: bool)
    ensures 4 <= HeadSize(wide) <= 12
  {
  }

  lemma CanWrite(env: Mapping, enc: U8, at: nat, f: NativeFde)
    requires Writable(env, enc, at, f)
    ensures enc < 128 && Size(enc) > 0
    ensures InEncoding(enc, StartNumber(env, enc, at, f.start)) && InEncoding(enc, Number(enc, f.range))
  {
  }

  lemma RangeIs(r: U64)
    ensures forall n :: Wrap(n + 0) == Wrap(r + 0) ==> Wrap(n) == r
  {
  }

  lemma FoundIs(p: nat, size: nat, f: NativeFde, cfi: nat)
    requires |f.cfi| <= size && cfi == p + size - |f.cfi|
    ensures Found(p, size, f) == if f.start == 0 then [] else [Entry(f.start, f.range, p, cfi, Wrap(p + size - cfi))]
  {
  }

  // An FDE from its fields, as they are read one after the other.
  lemma FdeAtIs(env: Mapping, s: seq<U8>, pos: nat, start: nat, end: nat, back: nat, enc: U8, z: bool,
                loc: U64, range: U64, p: nat, q: nat, cfi: nat)
    requires start <= end <= |s| && Word(s, start, 4) == back && 0 < back <= start
    requires CieEncoding(CieAt(s, start - back)) == enc && HasZ(CieAt(s, start - back)) == z
    requires ReadPtr(env, s, start + 4, end, enc) == Reading(loc, p) && ReadValue(s, p, end, enc) == Reading(range, q)
    requires if z then q < end && SkipAug(s[..end], q) == cfi else cfi == q
    ensures FdeAt(env, s, pos, start, end) == if loc == 0 then [] else [Entry(loc, range, pos, cfi, Wrap(end - cfi))]
  {
    hide Word, CieEncoding, CieAt, HasZ, ReadPtr, ReadValue, SkipAug;
  }

  lemma NoAug(aug: seq<U8>)
    ensures AugBytes(false, aug) == []
  {
  }

  lemma AugSmall(aug: seq<U8>)
    ensures |AugBytes(true, aug)| >= |aug|
  {
    hide Uleb;
  }

  lemma BackRead(s: seq<U8>, p: nat, v: nat)
    requires At(s, p, Le(v, 4)) && v < TWO32
    ensures Word(s, p, 4) == v
  {
    hide At, Word, Pow2, Le;
    Pow2Values();
    AtWord(s, p, v, 4);
  }

  lemma StartRead(env: Mapping, s: seq<U8>, p: nat, end: nat, enc: U8, f: NativeFde)
    requires enc < 128 && Size(enc) > 0 && p + Size(enc) <= end && InEncoding(enc, StartNumber(env, enc, p, f.start))
    requires At(s, p, Le(StartNumber(env, enc, p, f.start) % Pow2(8 * Size(enc)), Size(enc)))
    ensures ReadPtr(env, s, p, end, enc) == Reading(f.start, p + Size(enc))
  {
    hide At, Pow2, Le, InEncoding, ReadPtr, Number;
    var back := if enc / 16 == 1 then env.base + p else 0;
    PointerRead(env, s, p, end, enc, StartNumber(env, enc, p, f.start));
    NumberMeans(enc, f.start - back, back);
  }

  // --- Whole sections ---

  function Records(env: Mapping, enc: U8, z: bool, c: nat, p: nat, fs: seq<NativeFde>): seq<U8>
    requires c <= p
    decreases |fs|
  {
    if fs == [] then []
    else
      var r := Fde(env, enc, z, c, p, fs[0]);
      r + Records(env, enc, z, c, p + |r|, fs[1..])
  }

  function AllFound(env: Mapping, enc: U8, z: bool, c: nat, p: nat, fs: seq<NativeFde>): seq<Entry>
    requires c <= p
    decreases |fs|
  {
    if fs == [] then []
    else
      var n := |Fde(env, enc, z, c, p, fs[0])|;
      BodySize(env, enc, z, c, p, fs[0]);
      Found(p, n, fs[0]) + AllFound(env, enc, z, c, p + n, fs[1..])
  }

  predicate AllWritable(env: Mapping, enc: U8, z: bool, c: nat, p: nat, fs: seq<NativeFde>)
    requires c <= p
    decreases |fs|
  {
    fs == [] ||
    (Writable(env, enc, p + HeadSize(fs[0].wide) + 4, fs[0])
     && AllWritable(env, enc, z, c, p + |Fde(env, enc, z, c, p, fs[0])|, fs[1..]))
  }

  // A record of either form leads to the next one.
  lemma RecordStep(env: Mapping, s: seq<U8>, size: nat, p: nat, wide: bool, n: nat)
    requires At(s, p, Head(wide, n)) && p + HeadSize(wide) + n <= size <= |s| && size < LIMIT && n > 0
    ensures FdesFrom(env, s, size, p)
         == FdeAt(env, s, p, p + HeadSize(wide), p + HeadSize(wide) + n) + FdesFrom(env, s, size, p + HeadSize(wide) + n)
  {
    hide Word, FdeAt, Le, At, FdesFrom;
    if wide {
      AtParts(s, p, Le(0xffff_ffff, 4), Le(n, 8));
      WideRead(s, p, n);
      WideUnfolded(env, s, size, p, n);
    } else {
      BackRead(s, p, n);
      Unfolded(env, s, size, p, n);
    }
  }

  lemma WideUnfolded(env: Mapping, s: seq<U8>, size: nat, p: nat, n: nat)
    requires p + 12 + n <= size <= |s| && n > 0 && Word(s, p, 4) == 0xffff_ffff && Word(s, p + 4, 8) == n
    ensures FdesFrom(env, s, size, p) == FdeAt(env, s, p, p + 12, p + 12 + n) + FdesFrom(env, s, size, p + 12 + n)
  {
    hide Word, FdeAt;
  }

  lemma WideRead(s: seq<U8>, p: nat, n: nat)
    requires At(s, p, Le(0xffff_ffff, 4)) && At(s, p + 4, Le(n, 8)) && n < TWO64
    ensures Word(s, p, 4) == 0xffff_ffff && Word(s, p + 4, 8) == n
  {
    hide At, Word, Pow2, Le;
    Pow2Values();
    AtWord(s, p, 0xffff_ffff, 4);
    AtWord(s, p + 4, n, 8);
  }

  lemma {:induction false} FdesRead(env: Mapping, s: seq<U8>, size: nat, enc: U8, z: bool, c: nat, p: nat, fs: seq<NativeFde>)
    requires c <= p && At(s, p, Records(env, enc, z, c, p, fs))
    requires p + |Records(env, enc, z, c, p, fs)| <= size <= |s| && size < LIMIT
    requires c <= |s| && CieEncoding(CieAt(s, c)) == enc && HasZ(CieAt(s, c)) == z
    requires AllWritable(env, enc, z, c, p, fs)
    ensures FdesFrom(env, s, size, p)
         == AllFound(env, enc, z, c, p, fs) + FdesFrom(env, s, size, p + |Records(env, enc, z, c, p, fs)|)
    decreases |fs|
  {
    hide At, FdesFrom, FdeAt, Fde, Found, CieEncoding, CieAt, HasZ, Writable, Body, Head, HeadSize;
    if fs != [] {
      var (f, r) := (fs[0], Fde(env, enc, z, c, p, fs[0]));
      var (q, rest) := (p + |r|, fs[1..]);
      AtParts(s, p, r, Records(env, enc, z, c, q, rest));
      BodySize(env, enc, z, c, p, f);
      FdeRead(env, s, enc, z, c, p, f);
      FdePlaces(env, s, enc, z, c, p, f);
      RecordStep(env, s, size, p, f.wide, |Body(env, enc, z, c, p, f)|);
      FdesRead(env, s, size, enc, z, c, q, rest);
      Joined(Found(p, |r|, f), AllFound(env, enc, z, c, q, rest),
             FdesFrom(env, s, size, p + |Records(env, enc, z, c, p, fs)|));
    }
  }

  // The data of a CIE, FDEs that refer to it, and a zero length.
  function NativeSection(env: Mapping, d: seq<U8>, fs: seq<NativeFde>): seq<U8> {
    Le(|d|, 4) + d + Records(env, CieEncoding(d), HasZ(d), 0, 4 + |d|, fs) + Le(0, 4)
  }

  lemma SectionPlaces(env: Mapping, d: seq<U8>, fs: seq<NativeFde>, after: seq<U8>)
    ensures var m := NativeSection(env, d, fs) + after;
            var rs := Records(env, CieEncoding(d), HasZ(d), 0, 4 + |d|, fs);
            && At(m, 0, Le(|d|, 4)) && At(m, 4, d) && At(m, 4 + |d|, rs) && At(m, 4 + |d| + |rs|, Le(0, 4))
            && |NativeSection(env, d, fs)| == 4 + |d| + |rs| + 4
  {
    hide Records, Le, At, CieEncoding, HasZ;
    var s := NativeSection(env, d, fs);
    var rs := Records(env, CieEncoding(d), HasZ(d), 0, 4 + |d|, fs);
    WholeAt(s);
    AtLonger(s, after, 0, s);
    AtParts(s + after, 0, Le(|d|, 4) + d + rs, Le(0, 4));
    AtParts(s + after, 0, Le(|d|, 4) + d, rs);
    AtParts(s + after, 0, Le(|d|, 4), d);
  }

  lemma CieStands(s: seq<U8>, d: seq<U8>)
    requires At(s, 0, Le(|d|, 4)) && At(s, 4, d) && |d| < LIMIT
    ensures Word(s, 0, 4) == |d| && CieAt(s, 0) == d
  {
    BackRead(s, 0, |d|);
    hide Word, Le;
    assert s[4..4 + |d|] == d;
  }

  lemma CieSkipped(env: Mapping, s: seq<U8>, size: nat, d: seq<U8>)
    requires |d| >= 4 && d[..4] == [0, 0, 0, 0] && At(s, 0, Le(|d|, 4)) && At(s, 4, d)
    requires 4 + |d| <= size <= |s| && size < LIMIT
    ensures FdesFrom(env, s, size, 0) == FdesFrom(env, s, size, 4 + |d|)
  {
    hide Le, At, Word, FdesFrom, FdeAt, CieAt;
    CieStands(s, d);
    IdZero(s, 4, d);
    Unfolded(env, s, size, 0, |d|);
    NoFde(env, s, 0, 4, 4 + |d|);
  }

  lemma NoFde(env: Mapping, s: seq<U8>, pos: nat, start: nat, end: nat)
    requires start <= end <= |s| && Word(s, start, 4) == 0
    ensures FdeAt(env, s, pos, start, end) == []
  {
    hide Word;
  }

  // The parser finds in any section with one CIE, whatever is mapped after it, exactly the
  // FDEs written with a non-zero start: start, range and where the instructions are.
  lemma NativeParsed(env: Mapping, d: seq<U8>, fs: seq<NativeFde>, after: seq<U8>)
    requires |d| >= 4 && d[..4] == [0, 0, 0, 0] && |NativeSection(env, d, fs)| < LIMIT
    requires AllWritable(env, CieEncoding(d), HasZ(d), 0, 4 + |d|, fs)
    ensures var s := NativeSection(env, d, fs);
            FdesFrom(env, s + after, |s|, 0) == AllFound(env, CieEncoding(d), HasZ(d), 0, 4 + |d|, fs)
  {
    hide Records, Le, At, FdesFrom, AllFound, AllWritable, NativeSection, CieEncoding, HasZ, CieAt;
    var (size, enc, z) := (|NativeSection(env, d, fs)|, CieEncoding(d), HasZ(d));
    var m := NativeSection(env, d, fs) + after;
    SectionPlaces(env, d, fs, after);
    CieStands(m, d);
    CieSkipped(env, m, size, d);
    FdesRead(env, m, size, enc, z, 0, 4 + |d|, fs);
    Terminated(env, m, size, 4 + |d| + |Records(env, enc, z, 0, 4 + |d|, fs)|);
    assert AllFound(env, enc, z, 0, 4 + |d|, fs) + [] == AllFound(env, enc, z, 0, 4 + |d|, fs);
  }

  lemma CieIdZero(c: Cie)
    requires CieOk(c)
    ensures |CieBytes(c)| >= 4 && CieBytes(c)[..4] == [0, 0, 0, 0]
  {
    hide Uleb, Sleb, AllData, Chars;
  }

  // With augmentation data: in the encoding the CIE's letters announce.
  lemma AugmentedParsed(env: Mapping, c: Cie, fs: seq<NativeFde>, after: seq<U8>)
    requires CieOk(c) && |NativeSection(env, CieBytes(c), fs)| < LIMIT
    requires AllWritable(env, PointerEncoding(c.letters), true, 0, 4 + |CieBytes(c)|, fs)
    ensures var s := NativeSection(env, CieBytes(c), fs);
            FdesFrom(env, s + after, |s|, 0)
            == AllFound(env, PointerEncoding(c.letters), true, 0, 4 + |CieBytes(c)|, fs)
  {
    hide *;
    CieIdZero(c);
    CieRead(c);
    NativeParsed(env, CieBytes(c), fs, after);
  }

  // Without: absolute, and the instructions follow the range.
  lemma PlainParsed(env: Mapping, version: U8, rest: seq<U8>, fs: seq<NativeFde>, after: seq<U8>)
    requires |NativeSection(env, [0, 0, 0, 0, version, 0] + rest, fs)| < LIMIT
    requires AllWritable(env, 0, false, 0, 10 + |rest|, fs)
    ensures var s := NativeSection(env, [0, 0, 0, 0, version, 0] + rest, fs);
            FdesFrom(env, s + after, |s|, 0) == AllFound(env, 0, false, 0, 10 + |rest|, fs)
  {
    var d := [0, 0, 0, 0, version, 0] + rest;
    assert d[5] == 0 && d[..4] == [0, 0, 0, 0];
    assert CieEncoding(d) == 0 && !HasZ(d);
    hide *;
    NativeParsed(env, d, fs, after);
  }

  // An indirect pointer is what memory holds where the direct one would point.
  lemma IndirectRead(env: Mapping, s: seq<U8>, p: nat, end: nat, enc: U8)
    requires enc < 128 && enc + 128 != OMIT && Size(enc) > 0 && p + Size(enc) <= end
    ensures ReadPtr(env, s, p, end, enc + 128)
         == Reading(env.deref(ReadPtr(env, s, p, end, enc).value), p + Size(enc))
  {
    hide Word, Pow2;
  }
}
