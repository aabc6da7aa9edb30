// The SGR archive tools: sgr_repack.c builds and masks an archive, sgr_extract.c undoes
// both. zlib is an abstract pair of functions.
module Sgr {
  import opened Bits
  import opened Options
  import opened Words

  const MAGIC: U32 := 0x550f0f55

  // --- The generator ---

  datatype State = State(x: U32, y: U32, z: U32, w: U32, v: U32)

  // sugar_srand
  function Seeded(seed: U32): State {
    State(seed, (seed / 2 + 0x159a55e5) % TWO32, (seed / 8 + 0x1f123bb5) % TWO32,
          (seed / 32 + 0x05491333) % TWO32, (seed / 128 + 0x34dad465) % TWO32)
  }

  // sugar_rnd: the state it leaves, and the value it returns from the two states.
  function Stirred(s: State): State {
    var u := Xor32(s.x, s.x / 128);
    var v := Xor32(Xor32(Xor32(u, u * 0x2000 % TWO32), s.v), s.v * 64 % TWO32);
    State(s.y, s.z, s.w, s.v, v)
  }

  function Value(s: State): U32 {
    Stirred(s).v * ((s.z * 2 % TWO32) + 1) % TWO32
  }

  // The generator by the numbers: the state of one seed; the shifts by 7 and 13 on a lone
  // bit of x, the shift by 6 on the lowest bit of v, and the factor 2z + 1.
  lemma KnownDraws(y: U32, z: U32, w: U32)
    ensures Seeded(0x1234_5678) == State(0x1234_5678, 0x1eb4_8121, 0x2158_c684, 0x05da_b5e6, 0x34ff_3d11)
    ensures Stirred(State(128, y, z, w, 0)) == State(y, z, w, 0, 129 * 0x2001)
    ensures Stirred(State(0, y, z, w, 1)) == State(y, z, w, 1, 65)
    ensures z < 0x8000_0000 ==> Value(State(0, y, z, w, 1)) == 65 * (2 * z + 1) % TWO32
  {
    hide Bitwise;
    KnownXors();
    XorOfZero(129 * 0x2001);
    XorOfZero(0);
    XorZero(1);
  }

  lemma KnownXors()
    ensures Bitwise(Xor, 128, 1) == 129 && Bitwise(Xor, 1, 64) == 65
    ensures Bitwise(Xor, 129, 129 * 0x2000) == 129 * 0x2001
  {
    assert Bitwise(Xor, 128, 1) == 129 && Bitwise(Xor, 1, 64) == 65;
    Pow2Thirteen();
    hide Bitwise, Pow2;
    XorDisjoint(13, 129, 129);
  }

  lemma Pow2Thirteen()
    ensures Pow2(13) == 0x2000
  {
    Pow2Values();
    assert Pow2(5) == 32;
    hide Pow2;
    Pow2Add(8, 5);
  }

  lemma XorOfZero(x: nat)
    ensures Bitwise(Xor, x, 0) == x
  {
    XorSelfInverse(0, x);
    XorZero(x);
  }

  function Skip(s: State, n: nat): State
    decreases n
  {
    if n == 0 then s else Skip(Stirred(s), n - 1)
  }

  // The state the keystream starts from: one value drawn, then as many as its low four
  // bits say.
  function Start(seed: U32): State {
    Skip(Stirred(Seeded(seed)), Value(Seeded(seed)) % 16)
  }

  class Generator {
    var state: State

    constructor (seed: U32)
      ensures state == Seeded(seed)
    {
      state := Seeded(seed);
    }

    method Draw() returns (r: U32)
      modifies this
      ensures r == Value(old(state)) && state == Stirred(old(state))
    {
      var t, u := state.z, Xor32(state.x, state.x / 128);
      var v := Xor32(Xor32(Xor32(u, u * 0x2000 % TWO32), state.v), state.v * 64 % TWO32);
      state := State(state.y, state.z, state.w, state.v, v);
      r := v * ((t * 2 % TWO32) + 1) % TWO32;
    }

    // The skipping at the head of both buffer routines.
    method WarmUp()
      modifies this
      ensures state == Skip(Stirred(old(state)), Value(old(state)) % 16)
    {
      hide Stirred, Value;
      ghost var was := state;
      var r := Draw();
      var skip := r % 16;
      var i := 0;
      while i < skip
        invariant 0 <= i <= skip
        invariant Skip(state, skip - i) == Skip(Stirred(was), skip)
      {
        var drop := Draw();
        i := i + 1;
      }
    }
  }

  // --- Masking ---

  // Every other byte xored with the low byte of the next value.
  function Masked(data: seq<U8>, s: State): (r: seq<U8>)
    ensures |r| == |data|
    decreases |data|
  {
    if data == [] then []
    else if |data| == 1 then [Xor8(data[0], Value(s) % 0x100)]
    else [Xor8(data[0], Value(s) % 0x100), data[1]] + Masked(data[2..], Stirred(s))
  }

  // The k-th value masks byte 2k; the bytes between stay.
  lemma {:induction false} MaskedAt(data: seq<U8>, s: State, k: nat)
    requires 2 * k < |data|
    ensures Masked(data, s)[2 * k] == Xor8(data[2 * k], Value(Skip(s, k)) % 0x100)
    ensures 2 * k + 1 < |data| ==> Masked(data, s)[2 * k + 1] == data[2 * k + 1]
    decreases k
  {
    hide Value, Stirred;
    if k > 0 {
      MaskedAt(data[2..], Stirred(s), k - 1);
    }
  }

  // Between 1 and 16 values are dropped before the first that masks.
  lemma StartDrops(seed: U32)
    ensures var n := 1 + Value(Seeded(seed)) % 16; 1 <= n <= 16 && Start(seed) == Skip(Seeded(seed), n)
  {
    hide Value, Stirred;
  }

  lemma {:induction false} MaskedTwice(data: seq<U8>, s: State)
    ensures Masked(Masked(data, s), s) == data
    decreases |data|
  {
    hide Value, Stirred;
    if data != [] {
      var key: U8 := Value(s) % 0x100;
      XorSelfInverse(data[0], key);
      if |data| > 1 {
        MaskedTwice(data[2..], Stirred(s));
        assert Masked(data, s)[2..] == Masked(data[2..], Stirred(s));
        assert data == [data[0], data[1]] + data[2..];
      }
    }
  }

  // The in-place loop shared by encode_buffer and decode_buffer.
  method XorBuffer(buf: array<U8>, n: nat, g: Generator)
    requires n <= buf.Length
    modifies buf, g
    ensures buf[..n] == Masked(old(buf[..n]), old(g.state))
    ensures buf[n..] == old(buf[n..])
  {
    hide Value, Stirred, Masked;
    ghost var was, start := buf[..], g.state;
    assert was[0..n] == was[..n];
    var i := 0;
    while i < n
      invariant 0 <= i <= n + 1
      invariant forall k :: i <= k < buf.Length || n <= k < buf.Length ==> buf[k] == was[k]
      invariant i <= n ==> buf[..i] + Masked(was[i..n], g.state) == Masked(was[..n], start)
      invariant i > n ==> buf[..n] == Masked(was[..n], start)
    {
      ghost var pre, left := buf[..i], was[i..n];
      MaskStep(left, g.state);
      var r := g.Draw();
      buf[i] := Xor8(buf[i], r % 0x100);
      if i + 1 < n {
        assert left[2..] == was[i + 2..n];
        Regrouped(pre, [buf[i], was[i + 1]], Masked(was[i + 2..n], g.state));
        assert buf[..i + 2] == pre + [buf[i], was[i + 1]];
      } else {
        assert buf[..n] == pre + [buf[i]];
      }
      i := i + 2;
    }
    if i == n {
      MaskStep(was[i..n], g.state);
    }
  }

  lemma MaskStep(d: seq<U8>, s: State)
    ensures d == [] ==> Masked(d, s) == []
    ensures |d| == 1 ==> Masked(d, s) == [Xor8(d[0], Value(s) % 0x100)]
    ensures |d| > 1 ==> Masked(d, s) == [Xor8(d[0], Value(s) % 0x100), d[1]] + Masked(d[2..], Stirred(s))
  {
    hide Value, Stirred;
  }

  lemma Regrouped(a: seq<U8>, b: seq<U8>, c: seq<U8>)
    ensures a + (b + c) == (a + b) + c
  {
  }

  // --- Big-endian numbers ---

  function Be32(v: U32): (r: seq<U8>)
    ensures |r| == 4
  {
    [v / 0x100_0000, v / 0x1_0000 % 0x100, v / 0x100 % 0x100, v % 0x100]
  }

  function Be16(v: nat): (r: seq<U8>)
    ensures |r| == 2
  {
    [v / 0x100 % 0x100, v % 0x100]
  }

  function ByteAt(s: seq<U8>, p: nat): U8 {
    if p < |s| then s[p] else 0
  }

  function ReadBe16(s: seq<U8>, p: nat): (v: nat)
    ensures v < 0x1_0000
  {
    ByteAt(s, p) * 0x100 + ByteAt(s, p + 1)
  }

  function ReadBe32(s: seq<U8>, p: nat): U32 {
    ByteAt(s, p) * 0x100_0000 + ByteAt(s, p + 1) * 0x1_0000 + ByteAt(s, p + 2) * 0x100 + ByteAt(s, p + 3)
  }

  lemma Be32At(s: seq<U8>, p: nat, v: U32)
    requires At(s, p, Be32(v))
    ensures ReadBe32(s, p) == v
  {
    var b := Be32(v);
    assert s[p..p + 4] == b;
    assert s[p] == b[0] && s[p + 1] == b[1] && s[p + 2] == b[2] && s[p + 3] == b[3];
    Digits(v);
  }

  lemma Digits(v: U32)
    ensures v == v / 0x100_0000 * 0x100_0000 + v / 0x1_0000 % 0x100 * 0x1_0000 + v / 0x100 % 0x100 * 0x100 + v % 0x100
  {
    var (a, b) := (v / 0x100, v / 0x1_0000);
    DivModUnique(v, 0x1_0000, a / 0x100, a % 0x100 * 0x100 + v % 0x100);
    DivModUnique(v, 0x100_0000, b / 0x100, b % 0x100 * 0x1_0000 + v % 0x1_0000);
  }

  lemma Be16At(s: seq<U8>, p: nat, v: nat)
    requires At(s, p, Be16(v)) && v < 0x1_0000
    ensures ReadBe16(s, p) == v
  {
    var b := Be16(v);
    assert s[p..p + 2] == b;
    assert s[p] == b[0] && s[p + 1] == b[1];
  }

  // --- Sealed buffers: masked data and a trailer that gives the seed away ---

  function Sealed(data: seq<U8>, seed: U32): (r: seq<U8>)
    ensures |r| == |data| + 4
  {
    Masked(data, Start(seed)) + Be32(Xor32(seed, MAGIC))
  }

  // decode_buffer on a whole buffer.
  function Opened(buf: seq<U8>): seq<U8>
    requires |buf| >= 4
  {
    var n := |buf| - 4;
    Masked(buf[..n], Start(Xor32(ReadBe32(buf, n), MAGIC))) + buf[n..]
  }

  // encode_buffer
  method EncodeBuffer(buf: array<U8>, n: nat, seed: U32)
    requires n <= buf.Length
    modifies buf
    ensures buf[..n] == Masked(old(buf[..n]), Start(seed))
    ensures buf[n..] == old(buf[n..])
  {
    hide Value, Stirred, Seeded, Skip, Masked;
    var g := new Generator(seed);
    g.WarmUp();
    XorBuffer(buf, n, g);
  }

  // decode_buffer
  method DecodeBuffer(buf: array<U8>)
    requires buf.Length >= 4
    modifies buf
    ensures buf[..] == Opened(old(buf[..]))
  {
    hide Value, Stirred, Seeded, Skip, Masked;
    var n := buf.Length - 4;
    ghost var was := buf[..];
    assert buf[..n] == was[..n] && buf[n..] == was[n..];
    var tail := ReadBe32(buf[..], n);
    var g := new Generator(Xor32(tail, MAGIC));
    g.WarmUp();
    XorBuffer(buf, n, g);
    assert buf[..] == buf[..n] + buf[n..];
  }

  // Decoding inverts encoding plus trailer, for every seed and every length.
  lemma OpenedSealed(data: seq<U8>, seed: U32)
    ensures Opened(Sealed(data, seed)) == data + Be32(Xor32(seed, MAGIC))
  {
    hide Start, Masked, Be32, ReadBe32;
    var (s, n, tail) := (Sealed(data, seed), |data|, Xor32(seed, MAGIC));
    assert s[..n] == Masked(data, Start(seed)) && s[n..] == Be32(tail);
    assert At(s, n, Be32(tail));
    Be32At(s, n, tail);
    XorSelfInverse(seed, MAGIC);
    MaskedTwice(data, Start(seed));
  }

  // --- The archive ---

  // name, type, contents; seed is the random seed the entry is masked with
  datatype Entry = Entry(name: seq<U8>, kind: U8, data: seq<U8>, seed: U32)

  datatype Archive = Archive(title: seq<U8>, dev: seq<U8>, root: seq<U8>, entries: seq<Entry>)

  // buf_append_str
  function StringBytes(t: seq<U8>): seq<U8> {
    var n := |t| % 0x1_0000;
    Be16(n) + t[..n]
  }

  function EntryBytes(e: Entry): seq<U8> {
    var n := |e.name| % 0x1_0000;
    Be16(n) + (e.name[..n] + ([e.kind] + (Be32((|e.data| + 4) % TWO32) + Sealed(e.data, e.seed))))
  }

  function EntriesBytes(es: seq<Entry>): seq<U8> {
    if es == [] then [] else EntryBytes(es[0]) + EntriesBytes(es[1..])
  }

  function ArchiveBytes(a: Archive): seq<U8> {
    StringBytes(a.title) + (StringBytes(a.dev) + (StringBytes(a.root) + EntriesBytes(a.entries)))
  }

  // The archive-building loop.
  method Build(a: Archive) returns (buf: seq<U8>)
    ensures buf == ArchiveBytes(a)
  {
    hide StringBytes, EntryBytes;
    var (t, d, r) := (StringBytes(a.title), StringBytes(a.dev), StringBytes(a.root));
    buf := t + d + r;
    ghost var head := buf;
    assert a.entries[0..] == a.entries;
    for i := 0 to |a.entries|
      invariant buf + EntriesBytes(a.entries[i..]) == head + EntriesBytes(a.entries)
    {
      assert a.entries[i..][1..] == a.entries[i + 1..];
      buf := buf + EntryBytes(a.entries[i]);
    }
    assert a.entries[|a.entries|..] == [];
    assert head + EntriesBytes(a.entries) == t + (d + (r + EntriesBytes(a.entries)));
  }

  // --- Extraction ---

  // What extraction writes for one entry.
  datatype Extracted = Extracted(name: seq<U8>, kind: U8, data: seq<U8>)

  // At most n bytes from p.
  function Slice(s: seq<U8>, p: nat, n: nat): seq<U8> {
    if p >= |s| then [] else if p + n <= |s| then s[p..p + n] else s[p..]
  }

  // A header string: at most 255 bytes are kept, but all are skipped.
  function HeaderString(s: seq<U8>, p: nat): seq<U8> {
    Slice(s, p + 2, if ReadBe16(s, p) < 255 then ReadBe16(s, p) else 255)
  }

  function AfterString(s: seq<U8>, p: nat): nat {
    p + 2 + ReadBe16(s, p)
  }

  // The bytes of an entry's file: decoded and without the trailer, unless it is too
  // short to have one.
  function Contents(stored: seq<U8>): seq<U8> {
    if |stored| > 4 then Opened(stored)[..|stored| - 4] else stored
  }

  // The entry loop from pos on.
  function EntriesFrom(s: seq<U8>, p: nat): seq<Extracted>
    decreases |s| - p
  {
    var n := ReadBe16(s, p);
    if p + 7 >= |s| || n == 0 || n > 2000 || p + 2 + n + 5 > |s| then []
    else
      var q := p + 2 + n;
      var size := ReadBe32(s, q + 1);
      if q + 5 + size > |s| then []
      else [Extracted(s[p + 2..q], s[q], Contents(s[q + 5..q + 5 + size]))] + EntriesFrom(s, q + 5 + size)
  }

  datatype Listing = Listing(title: seq<U8>, dev: seq<U8>, root: seq<U8>, entries: seq<Extracted>)

  function Parsed(s: seq<U8>): Listing {
    var p1 := AfterString(s, 0);
    var p2 := AfterString(s, p1);
    Listing(HeaderString(s, 0), HeaderString(s, p1), HeaderString(s, p2), EntriesFrom(s, AfterString(s, p2)))
  }

  // The header and entry parse of sgr_extract's main.
  method Parse(s: seq<U8>) returns (r: Listing)
    ensures r == Parsed(s)
  {
    hide ReadBe16, ReadBe32, Contents, EntriesFrom;
    var pos: nat := 0;
    var title := HeaderString(s, pos);
    pos := pos + 2 + ReadBe16(s, pos);
    var dev := HeaderString(s, pos);
    pos := pos + 2 + ReadBe16(s, pos);
    var root := HeaderString(s, pos);
    pos := pos + 2 + ReadBe16(s, pos);
    var entries := ParseEntries(s, pos);
    r := Listing(title, dev, root, entries);
  }

  method ParseEntries(s: seq<U8>, first: nat) returns (entries: seq<Extracted>)
    ensures entries == EntriesFrom(s, first)
  {
    hide ReadBe16, ReadBe32, Contents, EntriesFrom;
    entries := [];
    var pos: nat := first;
    while pos + 7 < |s|
      invariant entries + EntriesFrom(s, pos) == EntriesFrom(s, first)
      decreases |s| - pos
    {
      EntryStep(s, pos);
      var n := ReadBe16(s, pos);
      if n == 0 || n > 2000 || pos + 2 + n + 5 > |s| {
        return;
      }
      var q := pos + 2 + n;
      var size := ReadBe32(s, q + 1);
      if q + 5 + size > |s| {
        return;
      }
      var found := [Extracted(s[pos + 2..q], s[q], Contents(s[q + 5..q + 5 + size]))];
      Rejoined(entries, found, EntriesFrom(s, q + 5 + size));
      entries := entries + found;
      pos := q + 5 + size;
    }
    EntryStep(s, pos);
  }

  // The loop body, once.
  lemma EntryStep(s: seq<U8>, p: nat)
    ensures var n := ReadBe16(s, p);
            EntriesFrom(s, p) ==
            if p + 7 >= |s| || n == 0 || n > 2000 || p + 2 + n + 5 > |s| then []
            else
              var q := p + 2 + n;
              var size := ReadBe32(s, q + 1);
              if q + 5 + size > |s| then []
              else [Extracted(s[p + 2..q], s[q], Contents(s[q + 5..q + 5 + size]))] + EntriesFrom(s, q + 5 + size)
  {
    hide ReadBe16, ReadBe32, Contents;
  }

  lemma Rejoined(a: seq<Extracted>, b: seq<Extracted>, c: seq<Extracted>)
    ensures a + (b + c) == (a + b) + c
  {
  }

  // --- Extraction inverts building ---

  // The stored size is not cut to 32 bits.
  predicate Sized(es: seq<Entry>) {
    forall i :: 0 <= i < |es| ==> |es[i].data| + 4 < TWO32
  }

  // A name the extractor goes on for.
  predicate Named(e: Entry) {
    1 <= |e.name| <= 2000
  }

  predicate AllNamed(es: seq<Entry>) {
    forall i :: 0 <= i < |es| ==> Named(es[i])
  }

  // A name's length is stored in 16 bits.
  function Cut(e: Entry): Entry {
    e.(name := e.name[..|e.name| % 0x1_0000])
  }

  // The entries extraction reaches: all before the first whose stored name it refuses.
  function Reached(es: seq<Entry>): (r: seq<Entry>)
    ensures |r| <= |es|
  {
    if es == [] || !Named(Cut(es[0])) then [] else [Cut(es[0])] + Reached(es[1..])
  }

  lemma {:induction false} AllReached(es: seq<Entry>)
    ensures Reached(es) == es <==> AllNamed(es)
    decreases |es|
  {
    if es != [] {
      AllReached(es[1..]);
      CutKeeps(es[0]);
      assert es == [es[0]] + es[1..];
      if AllNamed(es[1..]) && Named(es[0]) {
        forall i | 0 <= i < |es|
          ensures Named(es[i])
        {
          assert i > 0 ==> es[i] == es[1..][i - 1];
        }
      }
      if Reached(es) == es {
        assert Reached(es)[1..] == Reached(es[1..]);
      }
    }
  }

  lemma CutKeeps(e: Entry)
    ensures Named(e) ==> Cut(e) == e
  {
    if Named(e) {
      assert |e.name| % 0x1_0000 == |e.name| && e.name[..|e.name|] == e.name;
    }
  }

  // What extraction makes of a header string: 16 bits of its length, then at most 255 bytes.
  function HeaderKept(t: seq<U8>): seq<U8> {
    var n := |t| % 0x1_0000;
    t[..if n <= 255 then n else 255]
  }

  lemma HeaderWhole(t: seq<U8>)
    ensures HeaderKept(t) == t <==> |t| <= 255
  {
    if |t| <= 255 {
      assert |t| % 0x1_0000 == |t| && t[..|t|] == t;
    }
  }

  // What extraction makes of an entry: an empty one comes back as its own trailer.
  function Restored(e: Entry): Extracted {
    Extracted(e.name, e.kind, if e.data == [] then Be32(Xor32(e.seed, MAGIC)) else e.data)
  }

  function AllRestored(es: seq<Entry>): seq<Extracted> {
    if es == [] then [] else [Restored(es[0])] + AllRestored(es[1..])
  }

  lemma ContentsSealed(data: seq<U8>, seed: U32)
    ensures Contents(Sealed(data, seed)) == if data == [] then Be32(Xor32(seed, MAGIC)) else data
  {
    OpenedSealed(data, seed);
    hide Masked, Start, Opened, Be32;
    var s := Sealed(data, seed);
    if data == [] {
      assert s == Be32(Xor32(seed, MAGIC));
    }
  }

  lemma EntryBytesIs(e: Entry)
    requires |e.data| + 4 < TWO32
    ensures var name := Cut(e).name;
            EntryBytes(e) == Be16(|name|) + (name + ([e.kind] + (Be32(|e.data| + 4) + Sealed(e.data, e.seed))))
  {
    hide Be16, Be32, Sealed;
  }

  lemma EntryAt(s: seq<U8>, p: nat, e: Entry)
    requires |e.data| + 4 < TWO32 && At(s, p, EntryBytes(e))
    ensures var (n, size) := (|Cut(e).name|, |e.data| + 4);
            var q := p + 2 + n;
            && |EntryBytes(e)| == 2 + n + 5 + size && q + 5 + size <= |s|
            && ReadBe16(s, p) == n && s[p + 2..q] == Cut(e).name && s[q] == e.kind
            && ReadBe32(s, q + 1) == size && s[q + 5..q + 5 + size] == Sealed(e.data, e.seed)
  {
    hide At, Be16, Be32, ReadBe16, ReadBe32, Sealed;
    var (name, size) := (Cut(e).name, |e.data| + 4);
    var n := |name|;
    var (sealed, q) := (Sealed(e.data, e.seed), p + 2 + n);
    EntryBytesIs(e);
    hide EntryBytes;
    AtParts(s, p, Be16(n), name + ([e.kind] + (Be32(size) + sealed)));
    AtParts(s, p + 2, name, [e.kind] + (Be32(size) + sealed));
    AtParts(s, q, [e.kind], Be32(size) + sealed);
    AtParts(s, q + 1, Be32(size), sealed);
    Be16At(s, p, n);
    Be32At(s, q + 1, size);
    AtIs(s, p + 2, name);
    AtByte(s, q, e.kind);
    AtIs(s, q + 5, sealed);
  }

  lemma AtIs(s: seq<U8>, p: nat, x: seq<U8>)
    requires At(s, p, x)
    ensures p + |x| <= |s| && s[p..p + |x|] == x
  {
  }

  // One entry, and then the rest; or the end, at a name the extractor refuses.
  lemma EntryParsed(s: seq<U8>, p: nat, e: Entry)
    requires |e.data| + 4 < TWO32 && At(s, p, EntryBytes(e))
    ensures EntriesFrom(s, p) ==
            if Named(Cut(e)) then [Restored(Cut(e))] + EntriesFrom(s, p + |EntryBytes(e)|) else []
  {
    hide At, EntryBytes, Contents, Restored, ReadBe16, ReadBe32, Sealed, EntriesFrom;
    EntryAt(s, p, e);
    EntryStep(s, p);
    RestoredIs(Cut(e));
  }

  lemma {:induction false} EntriesParsed(s: seq<U8>, p: nat, es: seq<Entry>)
    requires Sized(es) && At(s, p, EntriesBytes(es)) && p + |EntriesBytes(es)| == |s|
    ensures EntriesFrom(s, p) == AllRestored(Reached(es))
    decreases |es|
  {
    hide At, EntryBytes, Restored, EntriesFrom, Cut, Named;
    if es == [] {
      NoEntries(s, p);
    } else {
      var e := es[0];
      var next := p + |EntryBytes(e)|;
      AtParts(s, p, EntryBytes(e), EntriesBytes(es[1..]));
      EntryParsed(s, p, e);
      if Named(Cut(e)) {
        EntriesParsed(s, next, es[1..]);
        assert Reached(es)[1..] == Reached(es[1..]);
      }
    }
  }

  lemma NoEntries(s: seq<U8>, p: nat)
    requires p == |s|
    ensures EntriesFrom(s, p) == []
  {
  }

  lemma RestoredIs(e: Entry)
    ensures Restored(e) == Extracted(e.name, e.kind, Contents(Sealed(e.data, e.seed)))
  {
    hide Contents, Sealed;
    ContentsSealed(e.data, e.seed);
  }

  lemma StringAt(s: seq<U8>, p: nat, t: seq<U8>)
    requires At(s, p, StringBytes(t))
    ensures HeaderString(s, p) == HeaderKept(t) && AfterString(s, p) == p + |StringBytes(t)|
  {
    var n := |t| % 0x1_0000;
    hide ReadBe16, Be16, At;
    AtParts(s, p, Be16(n), t[..n]);
    Be16At(s, p, n);
    AtIs(s, p + 2, t[..n]);
    var k := if n <= 255 then n else 255;
    if n > 0 {
      assert s[p + 2..p + 2 + k] == s[p + 2..p + 2 + n][..k];
    }
  }

  // What extraction makes of an archive.
  function Recovered(a: Archive): Listing {
    Listing(HeaderKept(a.title), HeaderKept(a.dev), HeaderKept(a.root), AllRestored(Reached(a.entries)))
  }

  // Parsing any built archive recovers the header strings up to 255 bytes and every entry
  // up to the first with no name or one over 2000 bytes; an entry's contents come back
  // unless it is empty.
  lemma BuiltParsed(a: Archive)
    requires Sized(a.entries)
    ensures Parsed(ArchiveBytes(a)) == Recovered(a)
  {
    hide At, StringBytes, EntriesBytes, HeaderString, AfterString, EntriesFrom, Sized;
    var s := ArchiveBytes(a);
    var (t, d, r, es) := (StringBytes(a.title), StringBytes(a.dev), StringBytes(a.root), EntriesBytes(a.entries));
    WholeAt(s);
    AtParts(s, 0, t, d + (r + es));
    AtParts(s, |t|, d, r + es);
    AtParts(s, |t| + |d|, r, es);
    StringAt(s, 0, a.title);
    StringAt(s, |t|, a.dev);
    StringAt(s, |t| + |d|, a.root);
    EntriesParsed(s, |t| + |d| + |r|, a.entries);
  }

  function Packed(es: seq<Entry>): seq<Extracted> {
    if es == [] then [] else [Extracted(es[0].name, es[0].kind, es[0].data)] + Packed(es[1..])
  }

  lemma {:induction false} RestoredIffNonEmpty(es: seq<Entry>)
    ensures AllRestored(es) == Packed(es) <==> forall i :: 0 <= i < |es| ==> es[i].data != []
    decreases |es|
  {
    hide Be32;
    if es != [] {
      RestoredIffNonEmpty(es[1..]);
      var (x, y) := (AllRestored(es), Packed(es));
      assert x[0] == Restored(es[0]) && x[1..] == AllRestored(es[1..]);
      assert y[0] == Extracted(es[0].name, es[0].kind, es[0].data) && y[1..] == Packed(es[1..]);
      if es[0].data != [] && forall i :: 0 <= i < |es[1..]| ==> es[1..][i].data != [] {
        forall i | 0 <= i < |es|
          ensures es[i].data != []
        {
          assert i > 0 ==> es[i] == es[1..][i - 1];
        }
      }
    }
  }

  // The archive as a listing, entry by entry.
  function Contained(a: Archive): Listing {
    Listing(a.title, a.dev, a.root, Packed(a.entries))
  }

  // The archives that come back as they were packed.
  predicate Faithful(a: Archive) {
    && |a.title| <= 255 && |a.dev| <= 255 && |a.root| <= 255
    && AllNamed(a.entries) && forall i :: 0 <= i < |a.entries| ==> a.entries[i].data != []
  }

  lemma {:induction false} NamesBack(es: seq<Entry>)
    requires AllRestored(Reached(es)) == Packed(es)
    ensures AllNamed(es)
    decreases |es|
  {
    hide Be32, Xor32;
    if es != [] {
      var (x, y) := (AllRestored(Reached(es)), Packed(es));
      assert Named(Cut(es[0]));
      assert Reached(es)[0] == Cut(es[0]) && Reached(es)[1..] == Reached(es[1..]);
      assert x[0].name == Cut(es[0]).name && y[0].name == es[0].name;
      assert x[1..] == AllRestored(Reached(es[1..])) && y[1..] == Packed(es[1..]);
      NamesBack(es[1..]);
      forall i | 0 <= i < |es|
        ensures Named(es[i])
      {
        assert i > 0 ==> es[i] == es[1..][i - 1];
      }
    }
  }

  lemma RecoveredIff(a: Archive)
    ensures Recovered(a) == Contained(a) <==> Faithful(a)
  {
    hide AllRestored, Packed, Reached;
    HeaderWhole(a.title);
    HeaderWhole(a.dev);
    HeaderWhole(a.root);
    AllReached(a.entries);
    RestoredIffNonEmpty(a.entries);
    if Recovered(a) == Contained(a) {
      NamesBack(a.entries);
    }
  }

  // --- The whole tool pair ---

  type Zip = seq<U8> -> seq<U8>
  type Unzip = (seq<U8>, nat) -> Option<seq<U8>>

  // Uncompressing what was compressed, given the size, gives it back.
  ghost predicate InversePair(zip: Zip, unzip: Unzip) {
    forall x :: unzip(zip(x), |x|) == Some(x)
  }

  // The file sgr_repack writes.
  function Repacked(zip: Zip, a: Archive, seed: U32): seq<U8> {
    var s := ArchiveBytes(a);
    Sealed(Be32(|s| % TWO32) + zip(s), seed)
  }

  // What sgr_extract makes of a file.
  function Unpacked(unzip: Unzip, file: seq<U8>): Option<Listing> {
    if |file| < 8 then None
    else
      var raw := Opened(file);
      match unzip(raw[4..|raw| - 4], ReadBe32(raw, 0))
      case None => None
      case Some(s) => Some(Parsed(s))
  }

  // Extraction after repacking, for every archive and seed; it gives back the archive
  // exactly when the header strings are short and every entry has a name and contents.
  lemma UnpackedRepacked(zip: Zip, unzip: Unzip, a: Archive, seed: U32)
    requires InversePair(zip, unzip)
    requires |ArchiveBytes(a)| < TWO32
    ensures Unpacked(unzip, Repacked(zip, a, seed)) == Some(Recovered(a))
    ensures Unpacked(unzip, Repacked(zip, a, seed)) == Some(Contained(a)) <==> Faithful(a)
  {
    hide ArchiveBytes, Sealed, Opened, Parsed, ReadBe32, Be32, Recovered, Contained, Faithful, Sized;
    SmallSized(a);
    BuiltParsed(a);
    RecoveredIff(a);
    var s := ArchiveBytes(a);
    OuterLayer(|s|, zip(s), seed);
    assert unzip(zip(s), |s|) == Some(s);
  }

  // An archive whose only file, named "a", is empty and masked with seed 0: whatever the
  // outer seed and the compressor, extraction writes four bytes for it.
  lemma EmptyFileReturnsTrailer(zip: Zip, unzip: Unzip, seed: U32)
    requires InversePair(zip, unzip)
    ensures var a := Archive([], [], [], [Entry([97], 0, [], 0)]);
            Unpacked(unzip, Repacked(zip, a, seed))
            == Some(Listing([], [], [], [Extracted([97], 0, [0x55, 0x0f, 0x0f, 0x55])]))
  {
    hide ArchiveBytes, Unpacked, Repacked, Be32, Xor32, InversePair;
    var e := Entry([97], 0, [], 0);
    var a := Archive([], [], [], [e]);
    SmallArchive(e);
    OnlyEntry(e);
    UnpackedRepacked(zip, unzip, a, seed);
    HeaderWhole([]);
    AllReached([e]);
    ZeroSeedTrailer();
  }

  lemma OnlyEntry(e: Entry)
    ensures AllRestored([e]) == [Restored(e)]
    ensures Named(e) ==> AllNamed([e])
  {
    assert [e][1..] == [] && AllRestored([]) == [];
  }

  lemma ZeroSeedTrailer()
    ensures Be32(Xor32(0, MAGIC)) == [0x55, 0x0f, 0x0f, 0x55]
  {
    hide Xor32;
    ZeroSeed(MAGIC);
  }

  lemma ZeroSeed(y: U32)
    ensures Xor32(0, y) == y
  {
    XorZero(y);
  }

  lemma SmallArchive(e: Entry)
    requires |e.name| <= 10 && |e.data| <= 10
    ensures |ArchiveBytes(Archive([], [], [], [e]))| < TWO32
  {
    hide Be16, Be32, Sealed;
    assert [e][1..] == [] && EntriesBytes([]) == [];
    assert EntriesBytes([e]) == EntryBytes(e) + [];
  }

  lemma SmallSized(a: Archive)
    requires |ArchiveBytes(a)| < TWO32
    ensures Sized(a.entries)
  {
    hide StringBytes, EntriesBytes;
    EntriesLong(a.entries);
  }

  lemma {:induction false} EntriesLong(es: seq<Entry>)
    ensures forall i :: 0 <= i < |es| ==> |es[i].data| + 4 <= |EntriesBytes(es)|
    decreases |es|
  {
    hide Be16, Be32, EntryBytes;
    if es != [] {
      EntriesLong(es[1..]);
      SealedLong(es[0]);
      forall i | 0 <= i < |es|
        ensures |es[i].data| + 4 <= |EntriesBytes(es)|
      {
        assert i > 0 ==> es[i] == es[1..][i - 1];
      }
    }
  }

  lemma SealedLong(e: Entry)
    ensures |EntryBytes(e)| >= |e.data| + 4
  {
    hide Be16, Be32, Masked, Start;
  }

  // The outer mask, the size field and the trailer come off again.
  lemma OuterLayer(n: U32, c: seq<U8>, seed: U32)
    ensures |Sealed(Be32(n) + c, seed)| == |c| + 8
    ensures var raw := Opened(Sealed(Be32(n) + c, seed));
            |raw| == |c| + 8 && raw[4..|raw| - 4] == c && ReadBe32(raw, 0) == n
  {
    hide Opened, ReadBe32, Be32, Start, Masked;
    var (tail, raw) := (Be32(Xor32(seed, MAGIC)), Opened(Sealed(Be32(n) + c, seed)));
    OpenedSealed(Be32(n) + c, seed);
    assert raw[4..|raw| - 4] == c;
    assert raw == Be32(n) + (c + tail);
    WholeAt(raw);
    AtParts(raw, 0, Be32(n), c + tail);
    Be32At(raw, 0, n);
  }
}
