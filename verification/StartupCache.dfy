// The startup cache file (startup_cache.c): its layout, its validation on opening, and
// what a published file guarantees.
module StartupCache {
  import opened Bits
  import opened Options
  import opened Words
  import Fnv

  const MAGIC: int := 0x5441474341474348
  const VERSION: int := 1
  const HEADER_SIZE: int := 120
  const CHECKSUM_AT: int := 104

  // st_dev, st_ino, st_size, st_mtim
  datatype Key = Key(dev: U64, ino: U64, size: U64, sec: U64, nsec: U64)

  // text_offset, instruction, kind
  datatype Patch = Patch(offset: U64, instruction: U32, kind: U32)

  // What one publisher wants to store.
  datatype Job = Job(key: Key, ehFrame: seq<U8>, hdrPairs: seq<U8>, cie: U64, patches: seq<Patch>, fdes: U32)

  // --- Layout ---

  function PatchBytes(p: Patch): (r: seq<U8>)
    ensures |r| == 16
  {
    Le(p.offset, 8) + Le(p.instruction, 4) + Le(p.kind, 4)
  }

  function PatchesBytes(ps: seq<Patch>): (r: seq<U8>)
    ensures |r| == 16 * |ps|
  {
    if ps == [] then [] else PatchBytes(ps[0]) + PatchesBytes(ps[1..])
  }

  function Payload(j: Job): seq<U8> {
    j.ehFrame + j.hdrPairs + PatchesBytes(j.patches)
  }

  // The source's sizes are 64-bit.
  predicate Fits(j: Job) {
    HEADER_SIZE + |Payload(j)| < TWO64
  }

  function HeadBytes(): (r: seq<U8>)
    ensures |r| == 16
  {
    Le(MAGIC, 8) + (Le(VERSION, 4) + Le(HEADER_SIZE, 4))
  }

  // has_unwind is always stored as 0.
  function KeyBytes(k: Key): (r: seq<U8>)
    ensures |r| == 48
  {
    Le(k.dev, 8) + (Le(k.ino, 8) + (Le(k.size, 8) + (Le(k.sec, 8) + (Le(k.nsec, 8) + Le(0, 8)))))
  }

  function SizeBytes(j: Job): (r: seq<U8>)
    ensures |r| == 40
  {
    Le(|j.ehFrame|, 8) + (Le(|j.hdrPairs|, 8) + (Le(|j.patches|, 8) + (Le(j.cie, 8) + (Le(j.fdes, 4) + Le(0, 4)))))
  }

  // Everything before the two checksums.
  function Fields(j: Job): (r: seq<U8>)
    ensures |r| == CHECKSUM_AT
  {
    HeadBytes() + (KeyBytes(j.key) + SizeBytes(j))
  }

  const NO_SUMS: seq<U8> := Le(0, 8) + Le(0, 8)

  function Header(j: Job, checksum: U64, payloadSum: U64): (r: seq<U8>)
    ensures |r| == HEADER_SIZE
  {
    Fields(j) + Le(checksum, 8) + Le(payloadSum, 8)
  }

  // header_checksum: both checksum fields count as 0.
  function Checksum(header: seq<U8>): U64
    requires |header| >= CHECKSUM_AT
  {
    Fnv.Hash(header[..CHECKSUM_AT] + NO_SUMS)
  }

  function HeaderSum(j: Job): U64 {
    Fnv.Hash(Fields(j) + NO_SUMS)
  }

  // The file while its payload is being written, and the finished file.
  function Draft(j: Job): seq<U8> {
    Header(j, HeaderSum(j), 0) + Payload(j)
  }

  function File(j: Job): seq<U8> {
    Header(j, HeaderSum(j), Fnv.Hash(Payload(j))) + Payload(j)
  }

  // --- Opening ---

  // What a successful open hands out: the header's fields and where the three parts
  // start in the mapping.
  datatype View = View(ehSize: U64, pairsSize: U64, patchCount: U64, cie: U64, fdes: U32,
                       ehAt: U64, pairsAt: U64, patchesAt: U64)

  predicate KeyMatches(s: seq<U8>, k: Key) {
    && Word(s, 16, 8) == k.dev && Word(s, 24, 8) == k.ino && Word(s, 32, 8) == k.size
    && Word(s, 40, 8) == k.sec && Word(s, 48, 8) == k.nsec
  }

  // header_size + eh_frame_size + hdr_pairs_size + patch_count * 16, in 64 bits
  function Needed(s: seq<U8>): U64 {
    Wrap(Word(s, 12, 4) + Word(s, 64, 8) + Word(s, 72, 8) + Wrap(Word(s, 80, 8) * 16))
  }

  predicate Accepts(s: seq<U8>, k: Key) {
    && |s| >= HEADER_SIZE
    && Word(s, 0, 8) == MAGIC && Word(s, 8, 4) == VERSION && Word(s, 12, 4) == HEADER_SIZE
    && Word(s, 104, 8) == Checksum(s)
    && KeyMatches(s, k)
    && Needed(s) == |s|
    && Word(s, 112, 8) == Fnv.Hash(s[HEADER_SIZE..])
  }

  function ViewOf(s: seq<U8>): View {
    WordFits(s, 64);
    WordFits(s, 72);
    WordFits(s, 80);
    WordFits(s, 88);
    HalfFits(s, 96);
    View(Word(s, 64, 8), Word(s, 72, 8), Word(s, 80, 8), Word(s, 88, 8), Word(s, 96, 4),
         HEADER_SIZE, Wrap(HEADER_SIZE + Word(s, 64, 8)), Wrap(HEADER_SIZE + Word(s, 64, 8) + Word(s, 72, 8)))
  }

  lemma WordFits(s: seq<U8>, p: nat)
    ensures Word(s, p, 8) < TWO64
  {
    WordBound(s, p, 8);
    Pow2Values();
  }

  lemma HalfFits(s: seq<U8>, p: nat)
    ensures Word(s, p, 4) < TWO32
  {
    WordBound(s, p, 4);
    Pow2Values();
  }

  // startup_cache_open on what the path leads to.
  method Open(file: Option<seq<U8>>, k: Key) returns (r: Option<View>)
    ensures r.Some? <==> file.Some? && Accepts(file.value, k)
    ensures r.Some? ==> r.value == ViewOf(file.value)
  {
    hide Word, Fnv.Hash;
    if file.None? {
      return None;
    }
    var s := file.value;
    if |s| < HEADER_SIZE {
      return None;
    }
    if Word(s, 0, 8) != MAGIC {
      return None;
    }
    if Word(s, 8, 4) != VERSION || Word(s, 12, 4) != HEADER_SIZE {
      return None;
    }
    var sum := Fnv.Fnv1a64(s[..CHECKSUM_AT] + NO_SUMS);
    if Word(s, 104, 8) != sum {
      return None;
    }
    if !KeyMatches(s, k) {
      return None;
    }
    if Needed(s) != |s| {
      return None;
    }
    var payloadSum := Fnv.Fnv1a64(s[HEADER_SIZE..]);
    if payloadSum != Word(s, 112, 8) {
      return None;
    }
    return Some(ViewOf(s));
  }

  // --- The fields of a written file ---

  lemma HeadAt(s: seq<U8>, p: nat)
    requires At(s, p, HeadBytes())
    ensures Word(s, p, 8) == MAGIC && Word(s, p + 8, 4) == VERSION && Word(s, p + 12, 4) == HEADER_SIZE
  {
    hide Le, Word, At, Pow2;
    Pow2Values();
    AtParts(s, p, Le(MAGIC, 8), Le(VERSION, 4) + Le(HEADER_SIZE, 4));
    AtParts(s, p + 8, Le(VERSION, 4), Le(HEADER_SIZE, 4));
    AtWord(s, p, MAGIC, 8);
    AtWord(s, p + 8, VERSION, 4);
    AtWord(s, p + 12, HEADER_SIZE, 4);
  }

  // Take one word off the front of a list of words.
  lemma TakeWord(s: seq<U8>, p: nat, v: nat, rest: seq<U8>)
    requires At(s, p, Le(v, 8) + rest) && v < TWO64
    ensures Word(s, p, 8) == v && At(s, p + 8, rest)
  {
    hide Le, Word, At, Pow2;
    Pow2Values();
    AtParts(s, p, Le(v, 8), rest);
    AtWord(s, p, v, 8);
  }

  lemma KeyAt(s: seq<U8>, p: nat, k: Key)
    requires At(s, p, KeyBytes(k))
    ensures Word(s, p, 8) == k.dev && Word(s, p + 8, 8) == k.ino && Word(s, p + 16, 8) == k.size
    ensures Word(s, p + 24, 8) == k.sec && Word(s, p + 32, 8) == k.nsec
  {
    hide Le, Word, At;
    TakeWord(s, p, k.dev, Le(k.ino, 8) + (Le(k.size, 8) + (Le(k.sec, 8) + (Le(k.nsec, 8) + Le(0, 8)))));
    TakeWord(s, p + 8, k.ino, Le(k.size, 8) + (Le(k.sec, 8) + (Le(k.nsec, 8) + Le(0, 8))));
    TakeWord(s, p + 16, k.size, Le(k.sec, 8) + (Le(k.nsec, 8) + Le(0, 8)));
    TakeWord(s, p + 24, k.sec, Le(k.nsec, 8) + Le(0, 8));
    TakeWord(s, p + 32, k.nsec, Le(0, 8));
  }

  lemma SizesAt(s: seq<U8>, p: nat, j: Job)
    requires At(s, p, SizeBytes(j)) && Fits(j)
    ensures Word(s, p, 8) == |j.ehFrame| && Word(s, p + 8, 8) == |j.hdrPairs| && Word(s, p + 16, 8) == |j.patches|
    ensures Word(s, p + 24, 8) == j.cie && Word(s, p + 32, 4) == j.fdes
  {
    assert |j.ehFrame| + |j.hdrPairs| + 16 * |j.patches| < TWO64;
    hide Le, Word, At, Fits, Pow2;
    var tail := Le(j.fdes, 4) + Le(0, 4);
    TakeWord(s, p, |j.ehFrame|, Le(|j.hdrPairs|, 8) + (Le(|j.patches|, 8) + (Le(j.cie, 8) + tail)));
    TakeWord(s, p + 8, |j.hdrPairs|, Le(|j.patches|, 8) + (Le(j.cie, 8) + tail));
    TakeWord(s, p + 16, |j.patches|, Le(j.cie, 8) + tail);
    TakeWord(s, p + 24, j.cie, tail);
    AtParts(s, p + 32, Le(j.fdes, 4), Le(0, 4));
    Pow2Values();
    AtWord(s, p + 32, j.fdes, 4);
  }

  // A file with this header, whatever follows.
  lemma HeaderAt(s: seq<U8>, j: Job, checksum: U64, payloadSum: U64)
    requires At(s, 0, Header(j, checksum, payloadSum))
    ensures At(s, 0, HeadBytes()) && At(s, 16, KeyBytes(j.key)) && At(s, 64, SizeBytes(j)) && At(s, 0, Fields(j))
    ensures Word(s, 104, 8) == checksum && Word(s, 112, 8) == payloadSum
  {
    hide Le, Word, At, HeadBytes, KeyBytes, SizeBytes, Pow2;
    AtParts(s, 0, Fields(j) + Le(checksum, 8), Le(payloadSum, 8));
    AtParts(s, 0, Fields(j), Le(checksum, 8));
    AtParts(s, 0, HeadBytes(), KeyBytes(j.key) + SizeBytes(j));
    AtParts(s, 16, KeyBytes(j.key), SizeBytes(j));
    Pow2Values();
    AtWord(s, 104, checksum, 8);
    AtWord(s, 112, payloadSum, 8);
  }

  // The finished file, field by field.
  lemma FileFields(j: Job)
    requires Fits(j)
    ensures var s := File(j);
            && |s| == HEADER_SIZE + |Payload(j)| && s[HEADER_SIZE..] == Payload(j) && s[..CHECKSUM_AT] == Fields(j)
            && Word(s, 0, 8) == MAGIC && Word(s, 8, 4) == VERSION && Word(s, 12, 4) == HEADER_SIZE
            && Word(s, 16, 8) == j.key.dev && Word(s, 24, 8) == j.key.ino && Word(s, 32, 8) == j.key.size
            && Word(s, 40, 8) == j.key.sec && Word(s, 48, 8) == j.key.nsec
            && Word(s, 64, 8) == |j.ehFrame| && Word(s, 72, 8) == |j.hdrPairs| && Word(s, 80, 8) == |j.patches|
            && Word(s, 88, 8) == j.cie && Word(s, 96, 4) == j.fdes
            && Word(s, 104, 8) == HeaderSum(j) && Word(s, 112, 8) == Fnv.Hash(Payload(j))
  {
    hide Word, Header, Payload, Fields, HeadBytes, KeyBytes, SizeBytes, HeaderSum, Fits, Fnv.Hash;
    var (s, h) := (File(j), Header(j, HeaderSum(j), Fnv.Hash(Payload(j))));
    assert At(s, 0, h);
    HeaderAt(s, j, HeaderSum(j), Fnv.Hash(Payload(j)));
    assert s[..CHECKSUM_AT] == Fields(j);
    hide At, File;
    HeadAt(s, 0);
    KeyAt(s, 16, j.key);
    SizesAt(s, 64, j);
  }

  // --- Results ---

  // 64-bit sizes of a file that fits do not wrap.
  lemma NeededIs(j: Job)
    requires Fits(j)
    ensures Needed(File(j)) == |File(j)| == HEADER_SIZE + |j.ehFrame| + |j.hdrPairs| + 16 * |j.patches|
  {
    hide Word, File, PatchesBytes, Fnv.Hash, Wrap;
    FileFields(j);
    WrapSmall(16 * |j.patches|);
    WrapSmall(HEADER_SIZE + |j.ehFrame| + |j.hdrPairs| + 16 * |j.patches|);
  }

  lemma WrapSmall(x: int)
    requires 0 <= x < TWO64
    ensures Wrap(x) == x
  {
  }

  lemma FileView(j: Job)
    requires Fits(j)
    ensures ViewOf(File(j)) == View(|j.ehFrame|, |j.hdrPairs|, |j.patches|, j.cie, j.fdes, HEADER_SIZE,
                                    HEADER_SIZE + |j.ehFrame|, HEADER_SIZE + |j.ehFrame| + |j.hdrPairs|)
  {
    hide Word, File, PatchesBytes, Fnv.Hash, Wrap;
    FileFields(j);
    WrapSmall(HEADER_SIZE + |j.ehFrame|);
    WrapSmall(HEADER_SIZE + |j.ehFrame| + |j.hdrPairs|);
  }

  // A published file is accepted for its own key and no other.
  lemma Reopened(j: Job, k: Key)
    requires Fits(j)
    ensures Accepts(File(j), k) <==> k == j.key
  {
    hide Word, File, Fnv.Hash, Fits, Needed, Fields, Payload;
    FileFields(j);
    NeededIs(j);
  }

  // A file whose header was not finished is refused for every key, unless its payload
  // happens to hash to 0.
  lemma DraftRefused(j: Job, k: Key)
    ensures Accepts(Draft(j), k) ==> Fnv.Hash(Payload(j)) == 0
  {
    hide Word, Header, Payload, HeadBytes, KeyBytes, SizeBytes, Fields, HeaderSum, Needed, Checksum, Fnv.Hash;
    var s := Draft(j);
    assert At(s, 0, Header(j, HeaderSum(j), 0));
    HeaderAt(s, j, HeaderSum(j), 0);
    assert s[HEADER_SIZE..] == Payload(j);
  }

  // The parts an open hands out are the published ones.
  lemma PartsReturned(j: Job)
    requires Fits(j)
    ensures var (s, v) := (File(j), ViewOf(File(j)));
            && v.cie == j.cie && v.fdes == j.fdes && v.patchCount == |j.patches|
            && v.ehAt + v.ehSize <= |s| && s[v.ehAt..v.ehAt + v.ehSize] == j.ehFrame
            && v.pairsAt + v.pairsSize <= |s| && s[v.pairsAt..v.pairsAt + v.pairsSize] == j.hdrPairs
            && v.patchesAt <= |s| && s[v.patchesAt..] == PatchesBytes(j.patches)
  {
    hide Word, File, Fnv.Hash, Needed, PatchesBytes, ViewOf, Fits;
    FileFields(j);
    FileView(j);
    PartsOf(File(j), j.ehFrame, j.hdrPairs, PatchesBytes(j.patches));
  }

  lemma PartsOf(s: seq<U8>, x: seq<U8>, y: seq<U8>, z: seq<U8>)
    requires |s| >= HEADER_SIZE && s[HEADER_SIZE..] == x + y + z
    ensures var (n, a, b) := (HEADER_SIZE, |x|, |y|);
            && n + a + b <= |s| && s[n..n + a] == x && s[n + a..n + a + b] == y && s[n + a + b..] == z
  {
    var (n, a, b) := (HEADER_SIZE, |x|, |y|);
    assert s[n..n + a] == s[n..][..a] && s[n + a..n + a + b] == s[n..][a..a + b];
    assert s[n + a + b..] == s[n..][a + b..];
  }

  // Each patch as the reader's array element.
  lemma {:induction false} PatchAt(s: seq<U8>, p: nat, ps: seq<Patch>, k: nat)
    requires k < |ps| && At(s, p, PatchesBytes(ps))
    ensures Word(s, p + 16 * k, 8) == ps[k].offset
    ensures Word(s, p + 16 * k + 8, 4) == ps[k].instruction && Word(s, p + 16 * k + 12, 4) == ps[k].kind
    decreases k
  {
    hide Le, Word, At, Pow2;
    AtParts(s, p, PatchBytes(ps[0]), PatchesBytes(ps[1..]));
    if k > 0 {
      hide PatchBytes;
      PatchAt(s, p + 16, ps[1..], k - 1);
    } else {
      AtParts(s, p, Le(ps[0].offset, 8) + Le(ps[0].instruction, 4), Le(ps[0].kind, 4));
      AtParts(s, p, Le(ps[0].offset, 8), Le(ps[0].instruction, 4));
      Pow2Values();
      AtWord(s, p, ps[0].offset, 8);
      AtWord(s, p + 8, ps[0].instruction, 4);
      AtWord(s, p + 12, ps[0].kind, 4);
    }
  }

  // Every strict prefix is rejected.
  lemma PrefixRejected(j: Job, n: nat, k: Key)
    requires Fits(j) && n < |File(j)|
    ensures !Accepts(File(j)[..n], k)
  {
    hide Word, File, Checksum, KeyMatches, Fnv.Hash, Fits;
    var s := File(j);
    if n >= HEADER_SIZE {
      WordInPrefix(s, n, 12, 4);
      WordInPrefix(s, n, 64, 8);
      WordInPrefix(s, n, 72, 8);
      WordInPrefix(s, n, 80, 8);
      NeededIs(j);
    }
  }

  lemma WordInPrefix(s: seq<U8>, n: nat, p: nat, w: nat)
    requires p + w <= n <= |s|
    ensures Word(s[..n], p, w) == Word(s, p, w)
  {
    assert s[..n][p..p + w] == s[p..p + w];
    WordAgree(s[..n], p, s, p, w);
  }

  // Every file that differs from a published one in exactly one byte is rejected.
  lemma ByteRejected(j: Job, i: nat, b: U8, k: Key)
    requires Fits(j) && i < |File(j)| && File(j)[i] != b
    ensures !Accepts(File(j)[i := b], k)
  {
    hide File, Word, KeyMatches, Fields, Payload, Fits, Needed;
    FileFields(j);
    var (s, t) := (File(j), File(j)[i := b]);
    if i < CHECKSUM_AT {
      WordElsewhere(s, i, b, 104, 8);
      FieldChanged(s, i, b);
    } else if i < 112 {
      WordChanged(s, i, b, 104, 8);
      assert t[..CHECKSUM_AT] == s[..CHECKSUM_AT];
    } else if i < HEADER_SIZE {
      WordChanged(s, i, b, 112, 8);
      assert t[HEADER_SIZE..] == s[HEADER_SIZE..];
    } else {
      WordElsewhere(s, i, b, 112, 8);
      assert t[HEADER_SIZE..] == s[HEADER_SIZE..][i - HEADER_SIZE := b];
      Fnv.OneByteChange(Fnv.BASIS, s[HEADER_SIZE..], i - HEADER_SIZE, b);
    }
  }

  lemma FieldChanged(s: seq<U8>, i: nat, b: U8)
    requires i < CHECKSUM_AT <= |s| && s[i] != b
    ensures Checksum(s[i := b]) != Checksum(s)
  {
    var m := s[..CHECKSUM_AT] + NO_SUMS;
    assert s[i := b][..CHECKSUM_AT] + NO_SUMS == m[i := b];
    Fnv.OneByteChange(Fnv.BASIS, m, i, b);
  }

  lemma WordElsewhere(s: seq<U8>, i: nat, b: U8, p: nat, n: nat)
    requires i < |s| && p + n <= |s| && (i < p || p + n <= i)
    ensures Word(s[i := b], p, n) == Word(s, p, n)
  {
    assert s[i := b][p..p + n] == s[p..p + n];
    WordAgree(s[i := b], p, s, p, n);
  }

  lemma WordChanged(s: seq<U8>, i: nat, b: U8, p: nat, n: nat)
    requires p <= i < p + n <= |s| && s[i] != b
    ensures Word(s[i := b], p, n) != Word(s, p, n)
  {
    LeOfWord(s, p, n);
    LeOfWord(s[i := b], p, n);
    assert s[i := b][p..p + n][i - p] == b && s[p..p + n][i - p] == s[i];
  }

  // --- Files nobody published ---

  // The parts an open hands out lie inside the file.
  predicate PartsInside(s: seq<U8>, v: View) {
    && v.ehAt + v.ehSize <= |s| && v.pairsAt + v.pairsSize <= |s|
    && v.patchesAt + 16 * v.patchCount <= |s|
  }

  // The size the header describes, without 64-bit wrap-around.
  function Described(s: seq<U8>): nat {
    HEADER_SIZE + Word(s, 64, 8) + Word(s, 72, 8) + 16 * Word(s, 80, 8)
  }

  // An accepted file has its parts inside if and only if its sizes add up without
  // wrapping: the size test is made modulo 2^64.
  lemma InsideExactly(s: seq<U8>, k: Key)
    requires Accepts(s, k) && |s| < TWO64
    ensures PartsInside(s, ViewOf(s)) <==> Described(s) == |s|
  {
    hide Word, Checksum, KeyMatches, Fnv.Hash, Wrap;
    WordFits(s, 64);
    WordFits(s, 72);
    WordFits(s, 80);
    WrapCases(HEADER_SIZE, Word(s, 64, 8), Word(s, 72, 8), Word(s, 80, 8), |s|);
  }

  lemma WrapCases(n: nat, a: U64, b: U64, c: U64, size: nat)
    requires n < TWO64 && size < TWO64 && Wrap(n + a + b + Wrap(c * 16)) == size
    ensures n + a <= size && Wrap(n + a) + b <= size && Wrap(n + a + b) + 16 * c <= size <==>
            n + a + b + 16 * c == size
  {
    if n + a <= size {
      WrapSmall(n + a);
      if n + a + b <= size {
        WrapSmall(n + a + b);
        if n + a + b + 16 * c <= size {
          WrapSmall(16 * c);
          WrapSmall(n + a + b + 16 * c);
        }
      }
    }
  }

  // A header alone, with sizes 2^64 - 16 and 16 and valid checksums.
  function WrappingSizes(): seq<U8> {
    Le(TWO64 - 16, 8) + (Le(16, 8) + (Le(0, 8) + (Le(0, 8) + (Le(0, 4) + Le(0, 4)))))
  }

  function WrappingFields(k: Key): (r: seq<U8>)
    ensures |r| == CHECKSUM_AT
  {
    HeadBytes() + (KeyBytes(k) + WrappingSizes())
  }

  function WrappingFile(k: Key): seq<U8> {
    WrappingFields(k) + Le(Fnv.Hash(WrappingFields(k) + NO_SUMS), 8) + Le(Fnv.Hash([]), 8)
  }

  // It is accepted although the frame it describes is far larger than the file.
  lemma WrappingFileAccepted(k: Key)
    ensures var s := WrappingFile(k);
            |s| == HEADER_SIZE && Accepts(s, k) && ViewOf(s).ehSize == TWO64 - 16 && !PartsInside(s, ViewOf(s))
  {
    hide Le, Word, At, HeadBytes, KeyBytes, Pow2, Fnv.Hash, Wrap;
    var (s, f) := (WrappingFile(k), WrappingFields(k));
    var (h, p) := (Fnv.Hash(f + NO_SUMS), Fnv.Hash([]));
    assert At(s, 0, s) by { WholeAt(s); }
    Pow2Values();
    AtParts(s, 0, f + Le(h, 8), Le(p, 8));
    AtParts(s, 0, f, Le(h, 8));
    AtParts(s, 0, HeadBytes(), KeyBytes(k) + WrappingSizes());
    AtParts(s, 16, KeyBytes(k), WrappingSizes());
    AtWord(s, 104, h, 8);
    AtWord(s, 112, p, 8);
    HeadAt(s, 0);
    KeyAt(s, 16, k);
    WrappingSizesAt(s);
    assert s[..CHECKSUM_AT] == f && s[HEADER_SIZE..] == [];
    WrapSmall(0);
    WrapAround();
  }

  lemma WrapAround()
    ensures Wrap(HEADER_SIZE + (TWO64 - 16) + 16 + 0) == HEADER_SIZE
  {
  }

  lemma WrappingSizesAt(s: seq<U8>)
    requires At(s, 64, WrappingSizes())
    ensures Word(s, 64, 8) == TWO64 - 16 && Word(s, 72, 8) == 16 && Word(s, 80, 8) == 0
  {
    hide Le, Word, At;
    var tail := Le(0, 8) + (Le(0, 4) + Le(0, 4));
    TakeWord(s, 64, TWO64 - 16, Le(16, 8) + (Le(0, 8) + tail));
    TakeWord(s, 72, 16, Le(0, 8) + tail);
    TakeWord(s, 80, 0, tail);
  }
}
