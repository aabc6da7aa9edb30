// A core that fetches patched text and pool at the site of a BCAX instruction.
module PatchedBcax {
  import opened Bits
  import opened Options
  import opened Memory
  import opened A64
  import opened Bcax
  import opened IsaPatch
  import opened PatchedSite

  // A core as the island sees it: its address in words, vector registers, SP and memory.
  datatype VCpu = VCpu(pc: int, s: Simd)

  function VMove(i: Instr, p: VCpu): VCpu {
    match i
    case B(offset) => VCpu(p.pc + offset, p.s)
    case _ => VCpu(p.pc + 1, VStep(i, p.s))
  }

  // At most n instructions as they are fetched, until the core comes to `stop`.
  function VRunTo(q: Code, p: VCpu, n: nat, stop: int): Option<VCpu>
    decreases n
  {
    if p.pc == stop then Some(p)
    else if n == 0 || Fetch(q, p.pc).None? then None
    else VRunTo(q, VMove(Fetch(q, p.pc).value, p), n - 1, stop)
  }

  // s is the site of a BCAX instruction b, patched, with an island near enough to return;
  // the pool does not start right after it.
  predicate BcaxSite(q: Code, before: seq<U32>, s: Site, b: Bcax) {
    && SitePatched(q.l, s, before, q.text, q.pool) && Separate(q)
    && DecodeBcax(before[s.i]) == Some(b)
    && Entry(q.l, s.i, s.at) <= 0x200_0002 - s.len
    && !InPool(q, Following(q, s))
  }

  lemma BcaxIsland(q: Code, before: seq<U32>, s: Site, b: Bcax)
    requires BcaxSite(q, before, s, b)
    ensures IslandFor(before[s.i], Ret(q.l, s.i, s.at)) == Some(BcaxCode(b, Ret(q.l, s.i, s.at)))
    ensures s.i < |q.text| && s.at + s.len <= |q.pool| && s.len == |BcaxBody(b)| + 1
  {
    hide Decode, DecodeBcax, EncodeAll, FieldsFit, BcaxBody, IslandFor;
    BcaxIslandFor(before[s.i], Ret(q.l, s.i, s.at));
  }

  lemma BodyPlain(b: Bcax, j: nat)
    requires j < |BcaxBody(b)|
    ensures !BcaxBody(b)[j].B?
  {
  }

  lemma BcaxFetched(q: Code, before: seq<U32>, s: Site, b: Bcax, j: nat)
    requires BcaxSite(q, before, s, b) && j <= |BcaxBody(b)|
    ensures Fetch(q, IslandBase(q, s) + j) == Some(BcaxCode(b, Ret(q.l, s.i, s.at))[j])
  {
    hide SitePatched, Decode, DecodeBcax, IslandFor, BcaxBody;
    BcaxIsland(q, before, s, b);
    IslandDecodes(q.l, s, before, q.text, q.pool);
  }

  // From the j-th instruction of the island to the word after the site.
  lemma {:induction false} IslandRuns(q: Code, before: seq<U32>, site: Site, b: Bcax, j: nat, s: Simd, n: nat)
    requires BcaxSite(q, before, site, b) && j <= |BcaxBody(b)| && n > |BcaxBody(b)| - j
    ensures VRunTo(q, VCpu(IslandBase(q, site) + j, s), n, Following(q, site))
            == Some(VCpu(Following(q, site), VRun(BcaxBody(b)[j..], s)))
    decreases |BcaxBody(b)| - j
  {
    hide BcaxSite, Fetch, BcaxBody, VStep, VRunTo, VRun, BcaxCode;
    var (body, p, stop) := (BcaxBody(b), VCpu(IslandBase(q, site) + j, s), Following(q, site));
    BcaxFetched(q, before, site, b, j);
    BcaxInPool(q, before, site, b, j);
    CodeParts(b, Ret(q.l, site.i, site.at), j);
    VRunOne(q, p, n, stop);
    VRunRest(body, j, s);
    if j < |body| {
      IslandRuns(q, before, site, b, j + 1, VStep(body[j], s), n - 1);
    } else {
      BackAfter(q, site);
      Arrived(q, VCpu(stop, s), n - 1);
    }
  }

  lemma CodeParts(b: Bcax, ret: int, j: nat)
    requires j <= |BcaxBody(b)|
    ensures |BcaxCode(b, ret)| == |BcaxBody(b)| + 1
    ensures if j < |BcaxBody(b)| then BcaxCode(b, ret)[j] == BcaxBody(b)[j] && !BcaxBody(b)[j].B?
            else BcaxCode(b, ret)[j] == B(ret - j)
  {
    if j < |BcaxBody(b)| {
      BodyPlain(b, j);
    }
    hide BcaxBody;
  }

  lemma VRunRest(code: seq<Instr>, j: nat, s: Simd)
    requires j <= |code|
    ensures VRun(code[j..], s) == if j < |code| then VRun(code[j + 1..], VStep(code[j], s)) else s
  {
    hide VStep;
    if j < |code| {
      assert code[j..][0] == code[j] && code[j..][1..] == code[j + 1..];
    }
  }

  lemma Arrived(q: Code, p: VCpu, n: nat)
    ensures VRunTo(q, p, n, p.pc) == Some(p)
  {
  }

  lemma BcaxInPool(q: Code, before: seq<U32>, s: Site, b: Bcax, j: nat)
    requires BcaxSite(q, before, s, b) && j <= |BcaxBody(b)|
    ensures IslandBase(q, s) + j != Following(q, s)
  {
    hide SitePatched, DecodeBcax, BcaxBody, IslandFor;
    BcaxIsland(q, before, s, b);
  }

  lemma BcaxEntered(q: Code, before: seq<U32>, s: Site, b: Bcax)
    requires BcaxSite(q, before, s, b)
    ensures Fetch(q, q.l.codeAt + s.i) == Some(B(IslandBase(q, s) - (q.l.codeAt + s.i)))
  {
    hide SitePatched, Decode, DecodeBcax, IslandFor, BcaxBody;
    BcaxIsland(q, before, s, b);
    EntryReaches(q.l, s, before, q.text, q.pool);
  }

  // What the island keeps in any case: SP, and all memory but the 16 bytes below it.
  lemma BodyFrame(b: Bcax, s: Simd)
    requires s.sp >= 16
    ensures var s' := VRun(BcaxBody(b), s);
            && s'.sp == s.sp
            && forall a :: a < s.sp - 16 || s.sp <= a ==> Byte(s'.mem, a) == Byte(s.mem, a)
  {
    if b.va != b.vd {
      WithTemporary(b, s);
    } else if Clobbers(b) {
      Clobbered(b, s);
    } else {
      InPlace(b, s);
    }
  }

  // A core that comes to a patched BCAX site and runs what it fetches is at the next word
  // within six instructions, with SP and all memory but the 16 bytes below it as they were.
  // Its vector registers are those of BCAX if and only if Vd, Vn and Va are not one
  // register, or that register and Vm hold 0.
  lemma BcaxSiteExecutes(q: Code, before: seq<U32>, site: Site, b: Bcax, p: VCpu) returns (r: VCpu)
    requires BcaxSite(q, before, site, b) && p.pc == q.l.codeAt + site.i && p.s.sp >= 16
    ensures VRunTo(q, p, 6, Following(q, site)) == Some(r) && r.pc == Following(q, site)
    ensures r.s.sp == p.s.sp && forall a :: a < p.s.sp - 16 || p.s.sp <= a ==> Byte(r.s.mem, a) == Byte(p.s.mem, a)
    ensures r.s.v == p.s.v[b.vd := Architectural(b, p.s.v)] <==>
            !Clobbers(b) || (p.s.v[b.vd] == 0 && p.s.v[b.vm] == 0)
  {
    BodyLength(b);
    hide BcaxSite, Fetch, BcaxBody, VRun, VStep, Architectural, VRunTo;
    BcaxEntered(q, before, site, b);
    IslandRuns(q, before, site, b, 0, p.s, 5);
    assert BcaxBody(b)[0..] == BcaxBody(b);
    VRunOne(q, p, 6, Following(q, site));
    r := VCpu(Following(q, site), VRun(BcaxBody(b), p.s));
    BodyFrame(b, p.s);
    BcaxExact(b, p.s);
  }

  lemma BodyLength(b: Bcax)
    ensures |BcaxBody(b)| <= 4
  {
  }

  lemma VRunOne(q: Code, p: VCpu, n: nat, stop: int)
    requires p.pc != stop && n > 0 && Fetch(q, p.pc).Some?
    ensures VRunTo(q, p, n, stop) == VRunTo(q, VMove(Fetch(q, p.pc).value, p), n - 1, stop)
  {
    hide Fetch, VMove;
  }
}
