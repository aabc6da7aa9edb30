// The LDAPR and TPIDRRO_EL0 rewrite of machgate.c: the scan that performs and
// records it, and the replay of the recorded list from the startup cache.
module TextReplay {
  import opened Bits
  import opened Options
  import opened A64
  import opened Lse

  datatype Kind = RCPC | TPIDRRO

  // text_offset, instruction, kind
  datatype TextPatch = TextPatch(offset: int, instruction: U32, kind: Kind)

  const PATCH_MAX: nat := 2 * 1024 * 1024

  // (w & 0x3FFFFC00) == 0x38BFC000
  predicate IsLdapr(w: U32) {
    w % 0x4000_0000 / 0x400 == 0x38BF_C000 / 0x400
  }

  // (w & 0xC00003FF) | 0x08DFFC00: the LDAR of the same size and registers
  function ToLdar(w: U32): U32 {
    w / 0x4000_0000 * 0x4000_0000 + 0x08DF_FC00 + w % 0x400
  }

  predicate IsTpidrro(w: U32) {
    w / 32 == 0xD53B_D060 / 32
  }

  function ToTpidr(w: U32): U32 {
    0xD53B_D040 + w % 32
  }

  // What the scan makes of one word.
  function Rewrite(w: U32): U32 {
    if IsLdapr(w) then ToLdar(w) else if IsTpidrro(w) then ToTpidr(w) else w
  }

  predicate Rewritten(w: U32) {
    IsLdapr(w) || IsTpidrro(w)
  }

  function KindOf(w: U32): Kind {
    if IsLdapr(w) then RCPC else TPIDRRO
  }

  // --- The words by their fields ---

  // LDAPR<size> Rt, [Rn] and LDAR<size> Rt, [Rn]; MRS Xt, TPIDRRO_EL0 and MRS Xt, TPIDR_EL0.
  function Ldapr(size: nat, rn: nat, rt: nat): nat { size * 0x4000_0000 + 0x38BF_C000 + rn * 32 + rt }
  function Ldar(size: nat, rn: nat, rt: nat): nat { size * 0x4000_0000 + 0x08DF_FC00 + rn * 32 + rt }
  function ReadTpidrro(rt: nat): nat { 0xD53B_D060 + rt }
  function ReadTpidr(rt: nat): nat { 0xD53B_D040 + rt }

  // A load of either kind becomes the LDAR of the same size and registers, a read of the
  // one register a read of the other.
  lemma RewriteOfFields(size: nat, rn: nat, rt: nat)
    requires size < 4 && rn < 32 && rt < 32
    ensures Ldapr(size, rn, rt) < TWO32 && Rewrite(Ldapr(size, rn, rt)) == Ldar(size, rn, rt)
    ensures ReadTpidrro(rt) < TWO32 && Rewrite(ReadTpidrro(rt)) == ReadTpidr(rt)
  {
    var w := Ldapr(size, rn, rt);
    DivModUnique(w, 0x4000_0000, size, 0x38BF_C000 + rn * 32 + rt);
    DivModUnique(0x38BF_C000 + rn * 32 + rt, 0x400, 0x38BF_C000 / 0x400, rn * 32 + rt);
    DivModUnique(w, 0x400, size * 0x10_0000 + 0x38BF_C000 / 0x400, rn * 32 + rt);
  }

  // And no other word is changed.
  lemma OnlyThese(w: U32) returns (size: nat, rn: nat, rt: nat)
    ensures size < 4 && rn < 32 && rt < 32
    ensures Rewrite(w) == w || w == Ldapr(size, rn, rt) || w == ReadTpidrro(rt)
    ensures IsLdapr(w) <==> w == Ldapr(size, rn, rt)
  {
    size, rn, rt := w / 0x4000_0000, w / 32 % 32, w % 32;
  }

  lemma LdarFields(w: U32)
    requires IsLdapr(w)
    ensures var (q, r) := (w / 0x4000_0000, w % 0x400);
            && Unpack(w) == Fields(q * 64 + 0x38, 5, 31, 48, r / 32, r % 32)
            && Unpack(ToLdar(w)) == Fields(q * 64 + 0x08, 6, 31, 63, r / 32, r % 32)
  {
    var q, r := w / 0x4000_0000, w % 0x400;
    LdaprParts(w);
    UnpackPack(w, Fields(q * 64 + 0x38, 5, 31, 48, r / 32, r % 32));
    UnpackPack(ToLdar(w), Fields(q * 64 + 0x08, 6, 31, 63, r / 32, r % 32));
  }

  lemma LdaprParts(w: U32)
    requires IsLdapr(w)
    ensures w == w / 0x4000_0000 * 0x4000_0000 + 0x38BF_C000 + w % 0x400
  {
    var v := w % 0x4000_0000;
    assert v == v / 0x400 * 0x400 + v % 0x400;
    ModOfMod(w, 0x400, 0x10_0000);
  }

  lemma TpidrFields(w: U32)
    requires IsTpidrro(w)
    ensures Unpack(w) == Fields(0xD5, 1, 27, 52, 3, w % 32)
    ensures Unpack(ToTpidr(w)) == Fields(0xD5, 1, 27, 52, 2, w % 32)
  {
    UnpackPack(w, Fields(0xD5, 1, 27, 52, 3, w % 32));
    UnpackPack(ToTpidr(w), Fields(0xD5, 1, 27, 52, 2, w % 32));
  }

  // Left alone, an LDAPR would be emulated as a swap with XZR; rewritten, it is
  // an LDAR, which the LSE decoder does not take.
  lemma LdaprIsNoSwap(w: U32)
    requires IsLdapr(w)
    ensures DecodeLse(w).Some? && DecodeLse(w).value.op == SWP
    ensures DecodeLse(Rewrite(w)) == None
  {
    LdarFields(w);
  }

  // The rewrite reaches a fixed point at once and always changes what it touches,
  // and the scan's second test never fires on the result of its first.
  lemma RewriteSettles(w: U32)
    ensures !Rewritten(Rewrite(w))
    ensures Rewrite(w) != w <==> Rewritten(w)
  {
    if IsLdapr(w) {
      LdarFields(w);
      NotRewritten(Rewrite(w));
    } else if IsTpidrro(w) {
      TpidrFields(w);
      NotRewritten(Rewrite(w));
    }
  }

  lemma NotRewritten(w: U32)
    ensures IsLdapr(w) ==> Unpack(w).h == 5 && Unpack(w).top % 64 == 0x38
    ensures IsTpidrro(w) ==> Unpack(w).n == 3 && Unpack(w).top == 0xD5
  {
    if IsLdapr(w) {
      LdarFields(w);
    }
    if IsTpidrro(w) {
      TpidrFields(w);
    }
  }

  // An executable section: its offset from the text base in bytes, and its words.
  datatype Section = Section(start: int, words: seq<U32>)

  function RewriteAll(words: seq<U32>): seq<U32> {
    seq(|words|, j requires 0 <= j < |words| => Rewrite(words[j]))
  }

  // The patches of words[from..], in order.
  function Patches(words: seq<U32>, start: int, from: nat): seq<TextPatch>
    requires from <= |words|
    decreases |words| - from
  {
    if from == |words| then []
    else
      var w := words[from];
      (if Rewritten(w) then [TextPatch(start + 4 * from, Rewrite(w), KindOf(w))] else [])
      + Patches(words, start, from + 1)
  }

  function AllPatches(secs: seq<Section>): seq<TextPatch> {
    if secs == [] then [] else Patches(secs[0].words, secs[0].start, 0) + AllPatches(secs[1..])
  }

  // record_text_patch keeps the first PATCH_MAX patches.
  function Capped(ps: seq<TextPatch>): seq<TextPatch> {
    if |ps| <= PATCH_MAX then ps else ps[..PATCH_MAX]
  }

  class Recorder {
    var patches: seq<TextPatch>

    method Record(p: TextPatch)
      modifies this
      ensures patches == if |old(patches)| >= PATCH_MAX then old(patches) else old(patches) + [p]
    {
      if |patches| >= PATCH_MAX {
        return;
      }
      patches := patches + [p];
    }
  }

  lemma CappedStep(ps: seq<TextPatch>, p: TextPatch)
    ensures Capped(ps + [p]) == if |Capped(ps)| >= PATCH_MAX then Capped(ps) else Capped(ps) + [p]
  {
  }

  lemma WordCases(w: U32)
    ensures IsLdapr(w) ==>
              Rewritten(w) && Rewrite(w) == ToLdar(w) && KindOf(w) == RCPC && !IsTpidrro(ToLdar(w))
    ensures !IsLdapr(w) && IsTpidrro(w) ==> Rewritten(w) && Rewrite(w) == ToTpidr(w) && KindOf(w) == TPIDRRO
    ensures !IsLdapr(w) && !IsTpidrro(w) ==> !Rewritten(w) && Rewrite(w) == w
  {
    RewriteSettles(w);
  }

  lemma PatchesStep(words: seq<U32>, start: int, j: nat, seen: seq<TextPatch>)
    requires j < |words|
    ensures var (w, p) := (words[j], TextPatch(start + 4 * j, Rewrite(words[j]), KindOf(words[j])));
            seen + Patches(words, start, j) ==
            (if Rewritten(w) then seen + [p] else seen) + Patches(words, start, j + 1)
  {
    hide Rewrite, Rewritten, KindOf;
    var p, rest := TextPatch(start + 4 * j, Rewrite(words[j]), KindOf(words[j])), Patches(words, start, j + 1);
    assert seen + ([p] + rest) == (seen + [p]) + rest;
    assert [] + rest == rest;
  }

  // The scan of one section; `before` is all that was to be recorded so far.
  method ScanSection(code: array<U32>, start: int, r: Recorder, ghost before: seq<TextPatch>)
    requires r.patches == Capped(before)
    modifies code, r
    ensures code[..] == RewriteAll(old(code[..]))
    ensures r.patches == Capped(before + Patches(old(code[..]), start, 0))
  {
    hide Rewrite, Rewritten, IsLdapr, IsTpidrro, ToLdar, ToTpidr, KindOf, Capped, Patches;
    ghost var words, seen := code[..], before;
    var j := 0;
    while j < code.Length
      invariant 0 <= j <= code.Length
      invariant forall i :: 0 <= i < j ==> code[i] == Rewrite(words[i])
      invariant forall i :: j <= i < code.Length ==> code[i] == words[i]
      invariant r.patches == Capped(seen)
      invariant seen + Patches(words, start, j) == before + Patches(words, start, 0)
    {
      WordCases(code[j]);
      PatchesStep(words, start, j, seen);
      if IsLdapr(code[j]) {
        code[j] := ToLdar(code[j]);
        CappedStep(seen, TextPatch(start + 4 * j, code[j], RCPC));
        r.Record(TextPatch(start + 4 * j, code[j], RCPC));
        seen := seen + [TextPatch(start + 4 * j, code[j], RCPC)];
      }
      if IsTpidrro(code[j]) {
        code[j] := ToTpidr(code[j]);
        CappedStep(seen, TextPatch(start + 4 * j, code[j], TPIDRRO));
        r.Record(TextPatch(start + 4 * j, code[j], TPIDRRO));
        seen := seen + [TextPatch(start + 4 * j, code[j], TPIDRRO)];
      }
      j := j + 1;
    }
    assert Patches(words, start, j) == [] by {
      NoPatchesLeft(words, start);
    }
    assert seen + [] == seen;
  }

  lemma NoPatchesLeft(words: seq<U32>, start: int)
    ensures Patches(words, start, |words|) == []
  {
  }

  // --- Replay ---

  // Skip the patches before this offset.
  function Skip(ps: seq<TextPatch>, cursor: nat, offset: int): (c: nat)
    requires cursor <= |ps|
    ensures cursor <= c <= |ps|
    decreases |ps| - cursor
  {
    if cursor < |ps| && ps[cursor].offset < offset then Skip(ps, cursor + 1, offset) else cursor
  }

  // Replaying ps from `cursor` over words[from..]: the new words and cursor.
  function ReplayWords(words: seq<U32>, start: int, from: nat, ps: seq<TextPatch>, cursor: nat): (r: (seq<U32>, nat))
    requires from <= |words| && cursor <= |ps|
    ensures |r.0| == |words| - from && r.1 <= |ps|
    decreases |words| - from
  {
    if from == |words| then ([], cursor)
    else
      var offset := start + 4 * from;
      var c := Skip(ps, cursor, offset);
      if c < |ps| && ps[c].offset == offset then
        var (rest, c') := ReplayWords(words, start, from + 1, ps, c + 1);
        ([ps[c].instruction] + rest, c')
      else
        var (rest, c') := ReplayWords(words, start, from + 1, ps, c);
        ([words[from]] + rest, c')
  }

  method ReplaySection(code: array<U32>, start: int, ps: seq<TextPatch>, cursor0: nat) returns (cursor: nat)
    requires cursor0 <= |ps|
    modifies code
    ensures (code[..], cursor) == ReplayWords(old(code[..]), start, 0, ps, cursor0)
  {
    ghost var words := code[..];
    cursor := cursor0;
    var j := 0;
    ReplayStart(words, start, ps, cursor0);
    assert code[..0] == [];
    while j < code.Length
      invariant 0 <= j <= code.Length && cursor <= |ps|
      invariant forall i :: j <= i < code.Length ==> code[i] == words[i]
      invariant ReplayedTo(words, start, ps, cursor0, code[..j], j, cursor)
    {
      var offset := start + 4 * j;
      ghost var c, done := Skip(ps, cursor, offset), code[..j];
      ReplayStep(words, start, ps, cursor0, done, j, cursor);
      hide ReplayedTo;
      while cursor < |ps| && ps[cursor].offset < offset
        invariant cursor <= |ps| && Skip(ps, cursor, offset) == c
      {
        cursor := cursor + 1;
      }
      if cursor < |ps| && ps[cursor].offset == offset {
        code[j] := ps[cursor].instruction;
        cursor := cursor + 1;
      }
      j := j + 1;
      assert code[..j] == done + [code[j - 1]];
    }
    ReplayEnd(words, start, ps, cursor0, code[..j], cursor);
    assert code[..j] == code[..];
  }

  lemma ReplayStart(words: seq<U32>, start: int, ps: seq<TextPatch>, cursor0: nat)
    requires cursor0 <= |ps|
    ensures ReplayedTo(words, start, ps, cursor0, [], 0, cursor0)
  {
    var all := ReplayWords(words, start, 0, ps, cursor0);
    assert [] + all.0 == all.0;
  }

  lemma ReplayEnd(words: seq<U32>, start: int, ps: seq<TextPatch>, cursor0: nat, done: seq<U32>, cursor: nat)
    requires cursor0 <= |ps| && ReplayedTo(words, start, ps, cursor0, done, |words|, cursor)
    ensures ReplayWords(words, start, 0, ps, cursor0) == (done, cursor)
  {
    assert done + [] == done;
  }

  // After the first j words have become `done`, the rest is still to replay.
  ghost predicate ReplayedTo(words: seq<U32>, start: int, ps: seq<TextPatch>, cursor0: nat,
                             done: seq<U32>, j: nat, cursor: nat)
    requires cursor0 <= |ps|
  {
    && j == |done| <= |words| && cursor <= |ps|
    && var rest := ReplayWords(words, start, j, ps, cursor);
    ReplayWords(words, start, 0, ps, cursor0) == (done + rest.0, rest.1)
  }

  lemma ReplayStep(words: seq<U32>, start: int, ps: seq<TextPatch>, cursor0: nat,
                   done: seq<U32>, j: nat, cursor: nat)
    requires cursor0 <= |ps| && j < |words| && ReplayedTo(words, start, ps, cursor0, done, j, cursor)
    ensures var c := Skip(ps, cursor, start + 4 * j);
            if c < |ps| && ps[c].offset == start + 4 * j
            then ReplayedTo(words, start, ps, cursor0, done + [ps[c].instruction], j + 1, c + 1)
            else ReplayedTo(words, start, ps, cursor0, done + [words[j]], j + 1, c)
  {
    var c := Skip(ps, cursor, start + 4 * j);
    var hit := c < |ps| && ps[c].offset == start + 4 * j;
    var x, c' := if hit then ps[c].instruction else words[j], if hit then c + 1 else c;
    var rest := ReplayWords(words, start, j + 1, ps, c');
    assert ReplayWords(words, start, j, ps, cursor) == ([x] + rest.0, rest.1);
    assert done + ([x] + rest.0) == (done + [x]) + rest.0;
  }

  // --- Replay against scan ---

  function ScanSections(secs: seq<Section>): seq<seq<U32>> {
    seq(|secs|, i requires 0 <= i < |secs| => RewriteAll(secs[i].words))
  }

  // The replay of all sections; the cursor runs on from one to the next.
  function ReplaySections(secs: seq<Section>, ps: seq<TextPatch>, cursor: nat): seq<seq<U32>>
    requires cursor <= |ps|
    decreases |secs|
  {
    if secs == [] then []
    else
      var (words, c) := ReplayWords(secs[0].words, secs[0].start, 0, ps, cursor);
      [words] + ReplaySections(secs[1..], ps, c)
  }

  // Sections follow one another, from offset lo on.
  predicate Ascending(secs: seq<Section>, lo: int) {
    secs == [] || (lo <= secs[0].start && Ascending(secs[1..], secs[0].start + 4 * |secs[0].words|))
  }

  // words[from..] with its first `budget` rewritable words rewritten.
  function RewriteFirst(words: seq<U32>, from: nat, budget: nat): (r: seq<U32>)
    requires from <= |words|
    ensures |r| == |words| - from
    decreases |words| - from
  {
    if from == |words| then []
    else if Rewritten(words[from]) && budget > 0
    then [Rewrite(words[from])] + RewriteFirst(words, from + 1, budget - 1)
    else [words[from]] + RewriteFirst(words, from + 1, budget)
  }

  function Min(a: nat, b: nat): nat {
    if a <= b then a else b
  }

  predicate From(ps: seq<TextPatch>, lo: int) {
    forall p :: p in ps ==> lo <= p.offset
  }

  lemma {:induction false} PatchesFrom(words: seq<U32>, start: int, from: nat)
    requires from <= |words|
    ensures From(Patches(words, start, from), start + 4 * from)
    decreases |words| - from
  {
    if from < |words| {
      PatchesFrom(words, start, from + 1);
    }
  }

  lemma {:induction false} AllPatchesFrom(secs: seq<Section>, lo: int)
    requires Ascending(secs, lo)
    ensures From(AllPatches(secs), lo)
    decreases |secs|
  {
    if secs != [] {
      PatchesFrom(secs[0].words, secs[0].start, 0);
      AllPatchesFrom(secs[1..], secs[0].start + 4 * |secs[0].words|);
    }
  }

  // From the cursor on, ps holds the first k patches of these words and of `later`.
  predicate Ahead(ps: seq<TextPatch>, cursor: nat, mine: seq<TextPatch>, later: seq<TextPatch>) {
    cursor <= |ps| && |ps| - cursor <= |mine + later| && ps[cursor..] == (mine + later)[..|ps| - cursor]
  }

  lemma PatchesOne(words: seq<U32>, start: int, from: nat)
    requires from <= |words|
    ensures Patches(words, start, from) ==
            if from == |words| then []
            else if Rewritten(words[from])
            then [TextPatch(start + 4 * from, Rewrite(words[from]), KindOf(words[from]))] + Patches(words, start, from + 1)
            else Patches(words, start, from + 1)
  {
    hide Rewrite, Rewritten, KindOf;
  }

  lemma RewriteOne(words: seq<U32>, from: nat, budget: nat)
    requires from <= |words|
    ensures RewriteFirst(words, from, budget) ==
            if from == |words| then []
            else if Rewritten(words[from]) && budget > 0
            then [Rewrite(words[from])] + RewriteFirst(words, from + 1, budget - 1)
            else [words[from]] + RewriteFirst(words, from + 1, budget)
  {
    hide Rewrite, Rewritten;
  }

  lemma {:induction false} ReplayIs(words: seq<U32>, start: int, from: nat, ps: seq<TextPatch>, cursor: nat,
                                    later: seq<TextPatch>)
    requires from <= |words| && Ahead(ps, cursor, Patches(words, start, from), later)
    requires From(later, start + 4 * |words|)
    ensures ReplayWords(words, start, from, ps, cursor) ==
            (RewriteFirst(words, from, |ps| - cursor), cursor + Min(|ps| - cursor, |Patches(words, start, from)|))
    decreases |words| - from
  {
    hide Rewrite, Rewritten, KindOf, ReplayWords, RewriteFirst, Patches, From;
    PatchesOne(words, start, from);
    RewriteOne(words, from, |ps| - cursor);
    if from == |words| {
      ReplayNothing(words, start, ps, cursor);
    } else {
      var w, mine, rest := words[from], Patches(words, start, from), Patches(words, start, from + 1);
      NoSkip(ps, cursor, mine, later, start + 4 * from, words, start, from);
      if cursor == |ps| {
        assert Ahead(ps, cursor, rest, later);
        ReplayIs(words, start, from + 1, ps, cursor, later);
        ReplayMiss(words, start, from, ps, cursor);
      } else if Rewritten(w) {
        var p := TextPatch(start + 4 * from, Rewrite(w), KindOf(w));
        assert ps[cursor] == ps[cursor..][0] == (mine + later)[0] == p;
        AheadStep(ps, cursor, p, rest, later);
        ReplayIs(words, start, from + 1, ps, cursor + 1, later);
        ReplayHit(words, start, from, ps, cursor);
      } else {
        ReplayIs(words, start, from + 1, ps, cursor, later);
        ReplayMiss(words, start, from, ps, cursor);
      }
    }
  }

  lemma ReplayNothing(words: seq<U32>, start: int, ps: seq<TextPatch>, cursor: nat)
    requires cursor <= |ps|
    ensures ReplayWords(words, start, |words|, ps, cursor) == ([], cursor)
  {
  }

  lemma ReplayMiss(words: seq<U32>, start: int, from: nat, ps: seq<TextPatch>, cursor: nat)
    requires from < |words| && cursor <= |ps| && Skip(ps, cursor, start + 4 * from) == cursor
    requires cursor < |ps| ==> ps[cursor].offset != start + 4 * from
    ensures var r := ReplayWords(words, start, from + 1, ps, cursor);
            ReplayWords(words, start, from, ps, cursor) == ([words[from]] + r.0, r.1)
  {
  }

  lemma ReplayHit(words: seq<U32>, start: int, from: nat, ps: seq<TextPatch>, cursor: nat)
    requires from < |words| && cursor < |ps| && Skip(ps, cursor, start + 4 * from) == cursor
    requires ps[cursor].offset == start + 4 * from
    ensures var r := ReplayWords(words, start, from + 1, ps, cursor + 1);
            ReplayWords(words, start, from, ps, cursor) == ([ps[cursor].instruction] + r.0, r.1)
  {
  }

  lemma AheadStep(ps: seq<TextPatch>, cursor: nat, p: TextPatch, rest: seq<TextPatch>, later: seq<TextPatch>)
    requires Ahead(ps, cursor, [p] + rest, later) && cursor < |ps|
    ensures Ahead(ps, cursor + 1, rest, later)
  {
    var k := |ps| - cursor;
    assert ps[cursor + 1..] == ps[cursor..][1..];
    assert ([p] + rest + later)[..k][1..] == (rest + later)[..k - 1];
  }

  // The next patch is never behind the word that is reached.
  lemma NoSkip(ps: seq<TextPatch>, cursor: nat, mine: seq<TextPatch>, later: seq<TextPatch>, offset: int,
               words: seq<U32>, start: int, from: nat)
    requires from < |words| && mine == Patches(words, start, from) && offset == start + 4 * from
    requires Ahead(ps, cursor, mine, later) && From(later, start + 4 * |words|)
    ensures Skip(ps, cursor, offset) == cursor
    ensures cursor < |ps| && ps[cursor].offset == offset ==> Rewritten(words[from])
  {
    hide Rewrite, Rewritten, KindOf;
    PatchesFrom(words, start, from);
    PatchesFrom(words, start, from + 1);
    if cursor < |ps| {
      assert ps[cursor] == ps[cursor..][0] == (mine + later)[0];
      assert (mine + later)[0] in mine || (mine + later)[0] in later;
      if !Rewritten(words[from]) {
        assert mine == Patches(words, start, from + 1);
      }
    }
  }

  // A budget that covers all patches rewrites everything; a smaller one does not.
  lemma {:induction false} RewriteFirstIs(words: seq<U32>, start: int, from: nat, budget: nat)
    requires from <= |words|
    ensures RewriteFirst(words, from, budget) == RewriteAll(words)[from..] <==> |Patches(words, start, from)| <= budget
    decreases |words| - from
  {
    if from < |words| {
      var w := words[from];
      RewriteSettles(w);
      hide Rewrite, Rewritten, KindOf;
      var all := RewriteAll(words);
      assert all[from..] == [Rewrite(w)] + all[from + 1..];
      if Rewritten(w) && budget > 0 {
        RewriteFirstIs(words, start, from + 1, budget - 1);
        SameTail(Rewrite(w), RewriteFirst(words, from + 1, budget - 1), all[from + 1..]);
      } else if Rewritten(w) {
        assert RewriteFirst(words, from, budget)[0] == w;
      } else {
        RewriteFirstIs(words, start, from + 1, budget);
        SameTail(w, RewriteFirst(words, from + 1, budget), all[from + 1..]);
      }
    }
  }

  lemma SameTail<T>(x: T, a: seq<T>, b: seq<T>)
    ensures [x] + a == [x] + b <==> a == b
  {
    assert ([x] + a)[1..] == a && ([x] + b)[1..] == b;
  }

  lemma {:induction false} SectionsReplay(secs: seq<Section>, lo: int, ps: seq<TextPatch>, cursor: nat)
    requires Ascending(secs, lo) && Ahead(ps, cursor, AllPatches(secs), [])
    ensures ReplaySections(secs, ps, cursor) == ScanSections(secs) <==> |AllPatches(secs)| <= |ps| - cursor
    decreases |secs|
  {
    hide Ahead, RewriteFirst, RewriteAll, ReplayWords, Patches, From, ReplaySections, ScanSections;
    if secs == [] {
      NoSections(ps, cursor);
    } else {
      var sec, rest := secs[0], secs[1..];
      var mine, later := Patches(sec.words, sec.start, 0), AllPatches(rest);
      AllPatchesFrom(rest, sec.start + 4 * |sec.words|);
      AheadSplit(ps, cursor, mine, later);
      ReplayIs(sec.words, sec.start, 0, ps, cursor, later);
      RewriteFirstIs(sec.words, sec.start, 0, |ps| - cursor);
      var first, c := RewriteFirst(sec.words, 0, |ps| - cursor), cursor + Min(|ps| - cursor, |mine|);
      FirstSection(secs, ps, cursor, first, c);
      if |mine| <= |ps| - cursor {
        AheadPast(ps, cursor, mine, later);
        SectionsReplay(rest, sec.start + 4 * |sec.words|, ps, c);
        SameTail(first, ReplaySections(rest, ps, c), ScanSections(rest));
      } else {
        DifferentHeads(first, RewriteAll(sec.words), ReplaySections(rest, ps, c), ScanSections(rest));
      }
    }
  }

  lemma NoSections(ps: seq<TextPatch>, cursor: nat)
    requires Ahead(ps, cursor, [], [])
    ensures cursor <= |ps| && ReplaySections([], ps, cursor) == ScanSections([]) == []
  {
  }

  lemma DifferentHeads<T>(x: T, y: T, a: seq<T>, b: seq<T>)
    requires x != y
    ensures [x] + a != [y] + b
  {
    assert ([x] + a)[0] == x && ([y] + b)[0] == y;
  }

  lemma FirstSection(secs: seq<Section>, ps: seq<TextPatch>, cursor: nat, words: seq<U32>, c: nat)
    requires secs != [] && cursor <= |ps| && c <= |ps|
    requires ReplayWords(secs[0].words, secs[0].start, 0, ps, cursor) == (words, c)
    ensures ReplaySections(secs, ps, cursor) == [words] + ReplaySections(secs[1..], ps, c)
    ensures ScanSections(secs) == [RewriteAll(secs[0].words)] + ScanSections(secs[1..])
    ensures RewriteAll(secs[0].words)[0..] == RewriteAll(secs[0].words)
  {
    hide ReplayWords, RewriteAll;
  }

  lemma AheadSplit(ps: seq<TextPatch>, cursor: nat, mine: seq<TextPatch>, later: seq<TextPatch>)
    requires Ahead(ps, cursor, mine + later, [])
    ensures Ahead(ps, cursor, mine, later) && cursor <= |ps|
  {
    assert mine + later + [] == mine + later;
  }

  lemma AheadPast(ps: seq<TextPatch>, cursor: nat, mine: seq<TextPatch>, later: seq<TextPatch>)
    requires Ahead(ps, cursor, mine, later) && |mine| <= |ps| - cursor
    ensures Ahead(ps, cursor + |mine|, later, [])
  {
    var k, c := |ps| - cursor, cursor + |mine|;
    assert ps[c..] == ps[cursor..][|mine|..];
    assert (mine + later)[..k][|mine|..] == later[..k - |mine|];
    assert later + [] == later;
  }

  // Replaying the recorded list over the original text gives exactly the text
  // the scan gives, if and only if the recording did not overflow.
  lemma ReplayEqualsScan(secs: seq<Section>, lo: int)
    requires Ascending(secs, lo)
    ensures ReplaySections(secs, Capped(AllPatches(secs)), 0) == ScanSections(secs) <==>
            |AllPatches(secs)| <= PATCH_MAX
  {
    var all, ps := AllPatches(secs), Capped(AllPatches(secs));
    assert all + [] == all && ps[0..] == ps && ps == all[..|ps|];
    SectionsReplay(secs, lo, ps, 0);
  }

  // A section of n LDAPRs of x0 from [x0].
  function Ldaprs(n: nat): seq<U32> {
    seq(n, i => 0x38BF_C000)
  }

  lemma {:induction false} LdaprPatches(n: nat, from: nat)
    requires from <= n
    ensures |Patches(Ldaprs(n), 0, from)| == n - from
    decreases n - from
  {
    if from < n {
      assert IsLdapr(Ldaprs(n)[from]);
      LdaprPatches(n, from + 1);
    }
  }

  // One LDAPR too many for the record: the replay leaves it, the scan does not.
  lemma OverflowLosesRewrite()
    ensures var secs := [Section(0, Ldaprs(PATCH_MAX + 1))];
            && |AllPatches(secs)| == PATCH_MAX + 1
            && ReplaySections(secs, Capped(AllPatches(secs)), 0) != ScanSections(secs)
  {
    hide Ldaprs, Patches, ReplaySections, ScanSections, Capped;
    var words := Ldaprs(PATCH_MAX + 1);
    var secs := [Section(0, words)];
    LdaprPatches(PATCH_MAX + 1, 0);
    assert secs[1..] == [] && AllPatches([]) == [];
    assert AllPatches(secs) == Patches(words, 0, 0) + [];
    ReplayEqualsScan(secs, 0);
  }

  // After the scan no word is LDAPR, reads TPIDRRO_EL0, or is a rewritten LDAPR
  // that LSE emulation would take.
  lemma ScanLeavesNone(words: seq<U32>, j: nat)
    requires j < |words|
    ensures !Rewritten(RewriteAll(words)[j])
    ensures IsLdapr(words[j]) ==> DecodeLse(RewriteAll(words)[j]) == None
  {
    RewriteSettles(words[j]);
    if IsLdapr(words[j]) {
      LdaprIsNoSwap(words[j]);
    }
  }
}
