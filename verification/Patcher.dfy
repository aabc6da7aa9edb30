// Applying a patch file (patcher.c): labels, location expressions and instructions are
// resolved in passes, and memory is written only when everything has succeeded. Parsing
// of the text is left out; lines arrive parsed.
module Patcher {
  import opened Bits
  import opened Options
  import opened Memory
  import opened A64
  import opened Leb

  datatype Pattern = Pattern(mask: U32, value: U32)

  datatype Loc =
    | Abs(offset: int)
    | Sym(name: string, offset: int)
    | Find(name: string, patterns: seq<Pattern>, within: U64)
    | Label(name: string, offset: int)

  datatype Insn = Raw(word: U32) | Branch(link: bool, target: Loc)

  datatype Line = Let(name: string, loc: Loc) | At(loc: Loc, insn: Insn, expected: Option<U32>)

  // The loaded image: whether there is one, its slide, its symbols (0 when missing) and
  // their extents.
  datatype Image = Image(loaded: bool, slide: U64, lookup: string -> U64, extent: string -> Option<(U64, U64)>)

  // --- Pattern search ---

  // The words from a on match the patterns.
  predicate Matches(m: Mem, a: int, ps: seq<Pattern>) {
    forall k :: 0 <= k < |ps| ==> Bitwise(And, Load(m, a + 4 * k, 4), ps[k].mask) == ps[k].value
  }

  // a is a place in [start, end) where the scan looks.
  predicate Window(start: int, end: int, n: nat, a: int) {
    start <= a && a + 4 * n <= end && (a - start) % 4 == 0
  }

  ghost predicate Hit(m: Mem, start: int, end: int, ps: seq<Pattern>, a: int) {
    ps != [] && Window(start, end, |ps|, a) && Matches(m, a, ps)
  }

  ghost predicate OnlyHit(m: Mem, start: int, end: int, ps: seq<Pattern>, a: int) {
    Hit(m, start, end, ps, a) && forall b :: Hit(m, start, end, ps, b) ==> b == a
  }

  method MatchAt(m: Mem, a: int, ps: seq<Pattern>) returns (ok: bool)
    ensures ok == Matches(m, a, ps)
  {
    for k := 0 to |ps|
      invariant forall i :: 0 <= i < k ==> Bitwise(And, Load(m, a + 4 * i, 4), ps[i].mask) == ps[i].value
    {
      if Bitwise(And, Load(m, a + 4 * k, 4), ps[k].mask) != ps[k].value {
        return false;
      }
    }
    ok := true;
  }

  // pattern_find_unique: 0, 1 or 2 for none, exactly one, several.
  method FindUnique(m: Mem, start: int, end: int, ps: seq<Pattern>) returns (count: nat, hit: int)
    ensures count <= 2
    ensures count == 0 <==> forall a :: !Hit(m, start, end, ps, a)
    ensures count == 1 <==> exists a :: OnlyHit(m, start, end, ps, a)
    ensures count == 1 ==> OnlyHit(m, start, end, ps, hit)
  {
    hide Matches;
    count, hit := 0, 0;
    var need := 4 * |ps|;
    if need == 0 || end < start || end - start < need {
      return;
    }
    var a := start;
    while a + need <= end
      invariant start <= a && (a - start) % 4 == 0 && count <= 1
      invariant count == 0 ==> forall b :: b < a ==> !Hit(m, start, end, ps, b)
      invariant count == 1 ==> hit < a && Hit(m, start, end, ps, hit)
      invariant count == 1 ==> forall b :: b < a && Hit(m, start, end, ps, b) ==> b == hit
      decreases end - a
    {
      NoneBetween(start, end, |ps|, a);
      var ok := MatchAt(m, a, ps);
      if ok {
        count := count + 1;
        if count == 1 {
          hit := a;
        }
        if count > 1 {
          TwoHits(m, start, end, ps, a, hit);
          return;
        }
      }
      a := a + 4;
    }
    assert forall b :: Hit(m, start, end, ps, b) ==> b < a;
    if count == 1 {
      assert OnlyHit(m, start, end, ps, hit);
    }
  }

  lemma TwoHits(m: Mem, start: int, end: int, ps: seq<Pattern>, a: int, b: int)
    requires Hit(m, start, end, ps, a) && Hit(m, start, end, ps, b) && a != b
    ensures forall x :: !OnlyHit(m, start, end, ps, x)
  {
  }

  // The scan's stride skips no window.
  lemma NoneBetween(start: int, end: int, n: nat, a: int)
    requires (a - start) % 4 == 0
    ensures forall b :: a < b < a + 4 ==> !Window(start, end, n, b)
  {
  }

  // --- Resolution ---

  type Env = map<string, U64>

  ghost function FindHit(m: Mem, start: int, end: int, ps: seq<Pattern>): Option<U64> {
    if exists a: U64 :: OnlyHit(m, start, end, ps, a) then
      var a: U64 :| OnlyHit(m, start, end, ps, a);
      Some(a)
    else None
  }

  // The end of the scanned range: the symbol's end, or earlier by the cap.
  function Bound(start: U64, end: U64, within: U64): U64 {
    if within != 0 && Wrap(start + within) < end then Wrap(start + within) else end
  }

  // The address a location denotes, if it has one. Labels come from env.
  ghost function Resolve(m: Mem, img: Image, env: Env, loc: Loc): Option<U64> {
    match loc
    case Abs(o) => Some(Wrap(o + img.slide))
    case Label(n, o) => if n in env then Some(Wrap(env[n] + o)) else None
    case Sym(n, o) =>
      if !img.loaded || img.lookup(n) == 0 then None else Some(Wrap(img.lookup(n) + o))
    case Find(n, ps, within) =>
      if !img.loaded || img.lookup(n) == 0 || img.extent(n).None? then None
      else
        var (start, end) := img.extent(n).value;
        FindHit(m, start, Bound(start, end, within), ps)
  }

  // The labels after the first i lines; none if a let among them fails.
  ghost function EnvUpTo(m: Mem, img: Image, lines: seq<Line>, i: nat): Option<Env>
    requires i <= |lines|
  {
    if i == 0 then Some(map[])
    else
      match EnvUpTo(m, img, lines, i - 1)
      case None => None
      case Some(env) =>
        if lines[i - 1].At? then Some(env)
        else
          match Resolve(m, img, env, lines[i - 1].loc)
          case None => None
          case Some(a) => Some(env[lines[i - 1].name := a])
  }

  datatype Write = Write(addr: U64, word: U32)

  function Displacement(target: U64, addr: U64): int {
    AsSigned(target) - AsSigned(addr)
  }

  // The word of an instruction at addr.
  ghost function Encoded(m: Mem, img: Image, env: Env, addr: U64, insn: Insn): Option<U32> {
    match insn
    case Raw(w) => Some(w)
    case Branch(link, target) =>
      match Resolve(m, img, env, target)
      case None => None
      case Some(t) =>
        var d := Displacement(t, addr);
        if !BranchInRange(d) then None else Some(if link then EncBl(d / 4) else EncB(d / 4))
  }

  // What an at line writes. Its expectation is judged on m, the memory before any write.
  ghost function Planned(m: Mem, img: Image, env: Env, line: Line): Option<Write>
    requires line.At?
  {
    match Resolve(m, img, env, line.loc)
    case None => None
    case Some(addr) =>
      match Encoded(m, img, env, addr, line.insn)
      case None => None
      case Some(word) =>
        if line.expected.Some? && Load(m, addr, 4) != line.expected.value then None else Some(Write(addr, word))
  }

  ghost function PlannedUpTo(m: Mem, img: Image, env: Env, lines: seq<Line>, i: nat): Option<seq<Write>>
    requires i <= |lines|
  {
    if i == 0 then Some([])
    else
      match PlannedUpTo(m, img, env, lines, i - 1)
      case None => None
      case Some(ws) =>
        if lines[i - 1].Let? then Some(ws)
        else
          match Planned(m, img, env, lines[i - 1])
          case None => None
          case Some(w) => Some(ws + [w])
  }

  // The writes of a whole file, or none if anything in it fails.
  ghost function Outcome(m: Mem, img: Image, lines: seq<Line>): Option<seq<Write>> {
    match EnvUpTo(m, img, lines, |lines|)
    case None => None
    case Some(env) => PlannedUpTo(m, img, env, lines, |lines|)
  }

  function WriteAll(m: Mem, ws: seq<Write>): Mem {
    if ws == [] then m
    else Store(WriteAll(m, ws[..|ws| - 1]), ws[|ws| - 1].addr, 4, ws[|ws| - 1].word)
  }

  // --- The label table ---

  datatype Entry = Entry(name: string, addr: U64, resolved: bool)

  function FirstNamed(t: seq<Entry>, name: string, i: nat): (r: nat)
    requires i <= |t|
    ensures i <= r <= |t|
    ensures r < |t| ==> t[r].name == name
    ensures forall k :: i <= k < r ==> t[k].name != name
    decreases |t| - i
  {
    if i == |t| || t[i].name == name then i else FirstNamed(t, name, i + 1)
  }

  // The table stands for env: the first entry of a name decides, if it is resolved.
  ghost predicate Stands(t: seq<Entry>, env: Env) {
    forall n :: (n in env <==> FirstNamed(t, n, 0) < |t| && t[FirstNamed(t, n, 0)].resolved)
                && (n in env ==> t[FirstNamed(t, n, 0)].addr == env[n])
  }

  // find_label
  method FindLabel(t: seq<Entry>, name: string, ghost env: Env) returns (r: Option<U64>)
    requires Stands(t, env)
    ensures r == if name in env then Some(env[name]) else None
  {
    var i := 0;
    while i < |t|
      invariant i <= |t| && FirstNamed(t, name, i) == FirstNamed(t, name, 0)
    {
      if t[i].name == name {
        return if t[i].resolved then Some(t[i].addr) else None;
      }
      i := i + 1;
    }
    r := None;
  }

  // The store at the end of pass 2b.
  method SetLabel(t: seq<Entry>, name: string, addr: U64, ghost env: Env) returns (r: seq<Entry>)
    requires Stands(t, env) && FirstNamed(t, name, 0) < |t|
    ensures |r| == |t| && Stands(r, env[name := addr])
    ensures forall k :: 0 <= k < |t| ==> r[k].name == t[k].name
  {
    var i := 0;
    while i < |t|
      invariant i <= |t| && FirstNamed(t, name, i) == FirstNamed(t, name, 0)
    {
      if t[i].name == name {
        r := t[i := Entry(name, addr, true)];
        forall n
          ensures FirstNamed(r, n, 0) == FirstNamed(t, n, 0)
        {
          SameNames(t, r, n, 0);
        }
        return;
      }
      i := i + 1;
    }
    r := t;
  }

  lemma {:induction false} SameNames(t: seq<Entry>, r: seq<Entry>, n: string, i: nat)
    requires |t| == |r| && i <= |t| && forall k :: 0 <= k < |t| ==> r[k].name == t[k].name
    ensures FirstNamed(r, n, i) == FirstNamed(t, n, i)
    decreases |t| - i
  {
    if i < |t| && t[i].name != n {
      SameNames(t, r, n, i + 1);
    }
  }

  // --- The passes ---

  method ResolveLoc(m: Mem, img: Image, t: seq<Entry>, loc: Loc, ghost env: Env) returns (r: Option<U64>)
    requires Stands(t, env)
    ensures r == Resolve(m, img, env, loc)
  {
    hide Stands, Hit;
    match loc
    case Abs(o) =>
      r := Some(Wrap(o + img.slide));
    case Label(n, o) =>
      var base := FindLabel(t, n, env);
      r := if base.None? then None else Some(Wrap(base.value + o));
    case Sym(n, o) =>
      if !img.loaded || img.lookup(n) == 0 {
        return None;
      }
      r := Some(Wrap(img.lookup(n) + o));
    case Find(n, ps, within) =>
      if !img.loaded || img.lookup(n) == 0 || img.extent(n).None? {
        return None;
      }
      var (start, end) := img.extent(n).value;
      var count, hit := FindUnique(m, start, Bound(start, end, within), ps);
      if count == 1 {
        HitInRange(m, start, Bound(start, end, within), ps, hit);
        r := Some(hit);
      } else {
        r := None;
      }
  }

  lemma HitInRange(m: Mem, start: U64, end: U64, ps: seq<Pattern>, a: int)
    requires OnlyHit(m, start, end, ps, a)
    ensures 0 <= a < TWO64
  {
  }

  // Pass 2a and 2b.
  method ResolveLets(m: Mem, img: Image, lines: seq<Line>) returns (ok: bool, t: seq<Entry>, ghost env: Env)
    ensures ok <==> EnvUpTo(m, img, lines, |lines|).Some?
    ensures ok ==> EnvUpTo(m, img, lines, |lines|) == Some(env) && Stands(t, env)
  {
    hide Resolve, Stands, FirstNamed;
    t := Register(lines);
    env := map[];
    for i := 0 to |lines|
      invariant EnvUpTo(m, img, lines, i) == Some(env) && Stands(t, env)
      invariant forall k :: 0 <= k < |lines| && lines[k].Let? ==> FirstNamed(t, lines[k].name, 0) < |t|
    {
      if lines[i].Let? {
        var a := ResolveLoc(m, img, t, lines[i].loc, env);
        if a.None? {
          FailsOn(m, img, lines, i + 1, |lines|);
          return false, t, env;
        }
        ghost var was := t;
        t := SetLabel(t, lines[i].name, a.value, env);
        env := env[lines[i].name := a.value];
        NamesStay(was, t);
      }
    }
    ok := true;
  }

  lemma NamesStay(t: seq<Entry>, r: seq<Entry>)
    requires |t| == |r| && forall k :: 0 <= k < |t| ==> r[k].name == t[k].name
    ensures forall n {:trigger FirstNamed(r, n, 0)} :: FirstNamed(r, n, 0) == FirstNamed(t, n, 0)
  {
    forall n
      ensures FirstNamed(r, n, 0) == FirstNamed(t, n, 0)
    {
      SameNames(t, r, n, 0);
    }
  }

  // Pass 2a: every let's name, unresolved.
  method Register(lines: seq<Line>) returns (t: seq<Entry>)
    ensures Stands(t, map[])
    ensures forall k :: 0 <= k < |lines| && lines[k].Let? ==> FirstNamed(t, lines[k].name, 0) < |t|
  {
    t := [];
    for i := 0 to |lines|
      invariant forall k :: 0 <= k < |t| ==> !t[k].resolved
      invariant forall k :: 0 <= k < i && lines[k].Let? ==> FirstNamed(t, lines[k].name, 0) < |t|
    {
      if lines[i].Let? {
        ghost var was := t;
        t := t + [Entry(lines[i].name, 0, false)];
        forall k | 0 <= k <= i && lines[k].Let?
          ensures FirstNamed(t, lines[k].name, 0) < |t|
        {
          var e := if k == i then |was| else FirstNamed(was, lines[k].name, 0);
          assert t[e].name == lines[k].name;
        }
      }
    }
  }

  lemma {:induction false} FailsOn(m: Mem, img: Image, lines: seq<Line>, i: nat, j: nat)
    requires i <= j <= |lines| && EnvUpTo(m, img, lines, i).None?
    ensures EnvUpTo(m, img, lines, j).None?
    decreases j - i
  {
    if i < j {
      FailsOn(m, img, lines, i, j - 1);
    }
  }

  lemma {:induction false} PlanFails(m: Mem, img: Image, env: Env, lines: seq<Line>, i: nat, j: nat)
    requires i <= j <= |lines| && PlannedUpTo(m, img, env, lines, i).None?
    ensures PlannedUpTo(m, img, env, lines, j).None?
    decreases j - i
  {
    if i < j {
      PlanFails(m, img, env, lines, i, j - 1);
    }
  }

  // Pass 2c and 3 for one line.
  method PlanLine(m: Mem, img: Image, t: seq<Entry>, line: Line, ghost env: Env) returns (r: Option<Write>)
    requires Stands(t, env) && line.At?
    ensures r == Planned(m, img, env, line)
  {
    hide Resolve, Stands, Load;
    var addr := ResolveLoc(m, img, t, line.loc, env);
    if addr.None? {
      return None;
    }
    var word: U32 := 0;
    match line.insn {
      case Raw(w) =>
        word := w;
      case Branch(link, target) =>
        var tgt := ResolveLoc(m, img, t, target, env);
        if tgt.None? {
          return None;
        }
        var diff := Displacement(tgt.value, addr.value);
        if !BranchInRange(diff) {
          return None;
        }
        word := if link then EncBl(diff / 4) else EncB(diff / 4);
    }
    if line.expected.Some? && Load(m, addr.value, 4) != line.expected.value {
      return None;
    }
    r := Some(Write(addr.value, word));
  }

  // The writes before the first whose page cannot be made writable, from the i-th on.
  function Granted(grant: nat -> bool, i: nat, n: nat): (k: nat)
    requires i <= n
    ensures i <= k <= n && (k < n ==> !grant(k)) && forall j :: i <= j < k ==> grant(j)
    decreases n - i
  {
    if i == n || !grant(i) then i else Granted(grant, i + 1, n)
  }

  // patcher_apply after parsing. If a line does not resolve or an expectation fails: -1
  // and memory as it was. Otherwise every line is written in order, up to the first whose
  // page cannot be made writable; then -1, with the earlier ones written.
  method Apply(m: Mem, img: Image, lines: seq<Line>, grant: nat -> bool) returns (applied: int, m': Mem)
    ensures Outcome(m, img, lines).None? ==> applied == -1 && m' == m
    ensures Outcome(m, img, lines).Some? ==>
              var ws := Outcome(m, img, lines).value;
              var k := Granted(grant, 0, |ws|);
              m' == WriteAll(m, ws[..k]) && applied == if k == |ws| then |ws| else -1
  {
    hide EnvUpTo, Planned, Stands, Store;
    m' := m;
    ghost var env;
    var ok, t;
    ok, t, env := ResolveLets(m, img, lines);
    if !ok {
      return -1, m;
    }
    var plan: seq<Write> := [];
    for i := 0 to |lines|
      invariant PlannedUpTo(m, img, env, lines, i) == Some(plan)
    {
      if lines[i].At? {
        var w := PlanLine(m, img, t, lines[i], env);
        if w.None? {
          PlanFails(m, img, env, lines, i + 1, |lines|);
          return -1, m;
        }
        plan := plan + [w.value];
      }
    }
    applied := 0;
    for i := 0 to |plan|
      invariant applied == i && m' == WriteAll(m, plan[..i])
      invariant Granted(grant, 0, |plan|) == Granted(grant, i, |plan|)
    {
      if !grant(i) {
        return -1, m';
      }
      assert plan[..i + 1][..i] == plan[..i];
      m' := Store(m', plan[i].addr, 4, plan[i].word);
      applied := applied + 1;
    }
    assert plan[..|plan|] == plan;
  }

  // --- Results ---

  lemma RawPlanned(m: Mem, img: Image, env: Env, a: U64, w: U32)
    requires img.slide == 0
    ensures Planned(m, img, env, At(Abs(a), Raw(w), None)) == Some(Write(a, w))
  {
    hide Load;
  }

  lemma TwoLines(m: Mem, img: Image, a: Line, b: Line, v: Write, w: Write)
    requires a.At? && b.At?
    requires Planned(m, img, map[], a) == Some(v) && Planned(m, img, map[], b) == Some(w)
    ensures Outcome(m, img, [a, b]) == Some([v, w])
  {
    hide Planned, Resolve;
    var lines := [a, b];
    assert EnvUpTo(m, img, lines, 0) == Some(map[]);
    assert EnvUpTo(m, img, lines, 1) == Some(map[]);
    var none: seq<Write> := [];
    assert none + [v] == [v] && [v] + [w] == [v, w];
    assert PlannedUpTo(m, img, map[], lines, 0) == Some(none);
    assert PlannedUpTo(m, img, map[], lines, 1) == Some([v]);
  }

  // Two lines, the second of which cannot be written: the call fails with the first
  // written.
  lemma HalfApplied(img: Image)
    requires img.slide == 0
    ensures var lines := [At(Abs(0x1000), Raw(1), None), At(Abs(0x2000), Raw(2), None)];
            && Outcome(map[], img, lines) == Some([Write(0x1000, 1), Write(0x2000, 2)])
            && Granted(i => i == 0, 0, 2) == 1
            && Load(WriteAll(map[], [Write(0x1000, 1), Write(0x2000, 2)][..1]), 0x1000, 4) == 1 != Load(map[], 0x1000, 4)
  {
    hide Load, Store, Planned, Outcome, WriteAll;
    var (a, b) := (At(Abs(0x1000), Raw(1), None), At(Abs(0x2000), Raw(2), None));
    RawPlanned(map[], img, map[], 0x1000, 1);
    RawPlanned(map[], img, map[], 0x2000, 2);
    TwoLines(map[], img, a, b, Write(0x1000, 1), Write(0x2000, 2));
    assert [Write(0x1000, 1), Write(0x2000, 2)][..1] == [Write(0x1000, 1)];
    LastWriteWins(map[], [Write(0x1000, 1)], 0);
    EmptyWord(0x1000);
  }

  lemma EmptyWord(a: int)
    ensures Load(map[], a, 4) == 0
  {
    assert LoadRange(map[], a + 4, a + 4) == 0;
    assert LoadRange(map[], a + 3, a + 4) == 0;
    assert LoadRange(map[], a + 2, a + 4) == 0;
    assert LoadRange(map[], a + 1, a + 4) == 0;
  }

  // A write that no later one overlaps is what memory holds afterwards.
  lemma {:induction false} LastWriteWins(m: Mem, ws: seq<Write>, k: nat)
    requires k < |ws|
    requires forall j :: k < j < |ws| ==> Disjoint(ws[k].addr, 4, ws[j].addr, 4)
    ensures Load(WriteAll(m, ws), ws[k].addr, 4) == ws[k].word
    decreases |ws|
  {
    hide Load, Store;
    var (n, init) := (|ws| - 1, ws[..|ws| - 1]);
    if k == n {
      WordStored(WriteAll(m, init), ws[n].addr, ws[n].word);
    } else {
      LoadElsewhere(WriteAll(m, init), ws[n].addr, 4, ws[n].word, ws[k].addr, 4);
      LastWriteWins(m, init, k);
    }
  }

  lemma WordStored(m: Mem, a: int, w: U32)
    ensures Load(Store(m, a, 4, w), a, 4) == w
  {
    LoadStored(m, a, 4, w);
    Pow2Values();
  }

  // A byte of no written word keeps its value.
  lemma {:induction false} OtherByte(m: Mem, ws: seq<Write>, b: int)
    requires forall k :: 0 <= k < |ws| ==> b < ws[k].addr || ws[k].addr + 4 <= b
    ensures Byte(WriteAll(m, ws), b) == Byte(m, b)
    decreases |ws|
  {
    if ws != [] {
      var (n, init) := (|ws| - 1, ws[..|ws| - 1]);
      OtherByte(m, init, b);
      StoreElsewhere(WriteAll(m, init), ws[n].addr, 4, ws[n].word, b);
    }
  }

  // A planned b or bl decodes to a branch whose target is its location.
  lemma BranchPlanned(m: Mem, img: Image, env: Env, line: Line)
    requires line.At? && line.insn.Branch? && Planned(m, img, env, line).Some?
    ensures var w := Planned(m, img, env, line).value;
            var i := Decode(w.word);
            && (if line.insn.link then i.Bl? else i.B?)
            && Resolve(m, img, env, line.insn.target) == Some(Wrap(w.addr + 4 * i.offset))
  {
    var w := Planned(m, img, env, line).value;
    var t := Resolve(m, img, env, line.insn.target).value;
    var d := Displacement(t, w.addr);
    hide Resolve, Decode;
    assert d == 4 * (d / 4);
    BranchReaches(d / 4);
    Reaches(t, w.addr);
  }

  lemma Reaches(t: U64, addr: U64)
    ensures Wrap(addr + Displacement(t, addr)) == t
  {
    var a: int := AsSigned(addr);
    var b: int := AsSigned(t);
    assert a == addr || a == addr - TWO64;
    assert b == t || b == t - TWO64;
    DivModUnique(addr + (b - a), TWO64, (addr + (b - a) - t) / TWO64, t);
  }

  // The labels visible to line i are exactly the lets before it, and the latest let of a
  // name decides.
  lemma {:induction false} LabelsAreEarlierLets(m: Mem, img: Image, lines: seq<Line>, i: nat, n: string)
    requires i <= |lines| && EnvUpTo(m, img, lines, i).Some?
    ensures n in EnvUpTo(m, img, lines, i).value <==> exists j :: 0 <= j < i && lines[j].Let? && lines[j].name == n
    decreases i
  {
    hide Resolve;
    if i > 0 {
      LabelsAreEarlierLets(m, img, lines, i - 1, n);
      var env := EnvUpTo(m, img, lines, i - 1).value;
      if lines[i - 1].Let? && lines[i - 1].name == n {
      } else if n in env {
        var j :| 0 <= j < i - 1 && lines[j].Let? && lines[j].name == n;
        assert 0 <= j < i;
      }
    }
  }

  lemma {:induction false} LatestLet(m: Mem, img: Image, lines: seq<Line>, i: nat, j: nat)
    requires j < i <= |lines| && EnvUpTo(m, img, lines, i).Some? && lines[j].Let?
    requires forall k :: j < k < i && lines[k].Let? ==> lines[k].name != lines[j].name
    ensures EnvUpTo(m, img, lines, j).Some?
    ensures lines[j].name in EnvUpTo(m, img, lines, i).value
    ensures Some(EnvUpTo(m, img, lines, i).value[lines[j].name])
         == Resolve(m, img, EnvUpTo(m, img, lines, j).value, lines[j].loc)
    decreases i
  {
    hide Resolve;
    if j < i - 1 {
      LatestLet(m, img, lines, i - 1, j);
    }
  }

  // A find resolves exactly when one window of its range matches.
  lemma FindIffUnique(m: Mem, img: Image, env: Env, loc: Loc, a: U64)
    requires loc.Find? && img.loaded && img.lookup(loc.name) != 0 && img.extent(loc.name).Some?
    ensures var (start, end) := img.extent(loc.name).value;
            Resolve(m, img, env, loc) == Some(a)
            <==> OnlyHit(m, start, Bound(start, end, loc.within), loc.patterns, a)
  {
    hide Hit;
  }

  // --- Locations by the numbers ---

  function Plus(a: Option<U64>, d: int): Option<U64> {
    if a.None? then None else Some((a.value + d) % TWO64)
  }

  // A location is its base plus its offset: the symbol's address, the label's, or the
  // slide of the image.
  lemma LocationMeans(m: Mem, img: Image, env: Env, n: string, o: int, d: int)
    ensures Resolve(m, img, env, Sym(n, o + d)) == Plus(Resolve(m, img, env, Sym(n, o)), d)
    ensures Resolve(m, img, env, Label(n, o + d)) == Plus(Resolve(m, img, env, Label(n, o)), d)
    ensures Resolve(m, img, env, Abs(o + d)) == Plus(Resolve(m, img, env, Abs(o)), d)
    ensures Resolve(m, img, env, Sym(n, 0)) == if img.loaded && img.lookup(n) != 0 then Some(img.lookup(n)) else None
    ensures Resolve(m, img, env, Label(n, 0)) == if n in env then Some(env[n]) else None
    ensures Resolve(m, img, env, Abs(0)) == Some(img.slide)
  {
    hide FindHit, Wrap, Bound;
    WrapPlus(img.slide + o, d);
    WrapPlus(img.lookup(n) + o, d);
    Unmoved(img.slide);
    Unmoved(img.lookup(n));
    if n in env {
      WrapPlus(env[n] + o, d);
      Unmoved(env[n]);
    }
  }

  lemma WrapPlus(x: int, d: int)
    ensures Wrap(x + d) == (Wrap(x) + d) % TWO64
  {
    SumMod(d, x, TWO64);
  }

  lemma Unmoved(a: U64)
    ensures Wrap(a + 0) == a
  {
  }

  // A find looks at every fourth byte of its symbol's extent, cut to `within` bytes if that
  // is not 0.
  lemma FindLooksAt(start: U64, end: U64, within: U64, n: nat, a: int)
    requires start + within < TWO64 && start <= end
    ensures var stop := if within == 0 || start + within >= end then end else start + within;
            Window(start, Bound(start, end, within), n, a) <==>
            start <= a <= stop - 4 * n && exists k :: a == start + 4 * k
  {
    if start <= a && (a - start) % 4 == 0 {
      assert a == start + 4 * ((a - start) / 4);
    }
  }

  // A successful file: every expectation held in the memory before it, and a raw line that
  // no later line overlaps is in memory.
  lemma AppliedRaw(m: Mem, img: Image, lines: seq<Line>, i: nat)
    requires i < |lines| && lines[i].At? && Outcome(m, img, lines).Some?
    ensures var env := EnvUpTo(m, img, lines, |lines|).value;
            var a := Resolve(m, img, env, lines[i].loc);
            && a.Some? && Planned(m, img, env, lines[i]).Some?
            && (lines[i].expected.Some? ==> Load(m, a.value, 4) == lines[i].expected.value)
            && (lines[i].insn.Raw? && LastAtItsPlace(m, img, env, lines, i) ==>
                  Load(WriteAll(m, Outcome(m, img, lines).value), a.value, 4) == lines[i].insn.word)
  {
    hide Resolve, Load, WriteAll, LastAtItsPlace;
    AppliedLine(m, img, lines, i);
  }

  // --- Lines and what memory holds after them ---

  // The number of at lines among the first i.
  function AtLines(lines: seq<Line>, i: nat): nat
    requires i <= |lines|
  {
    if i == 0 then 0 else AtLines(lines, i - 1) + if lines[i - 1].At? then 1 else 0
  }

  // The write of an at line stands at the line's place in the plan.
  lemma {:induction false} PlanHas(m: Mem, img: Image, env: Env, lines: seq<Line>, i: nat, n: nat)
    requires i < n <= |lines| && lines[i].At? && PlannedUpTo(m, img, env, lines, n).Some?
    ensures var (ws, k) := (PlannedUpTo(m, img, env, lines, n).value, AtLines(lines, i));
            k < |ws| == AtLines(lines, n) && Planned(m, img, env, lines[i]) == Some(ws[k])
    decreases n
  {
    hide Planned;
    if i == n - 1 {
      PlanSize(m, img, env, lines, i);
    } else {
      PlanHas(m, img, env, lines, i, n - 1);
    }
  }

  lemma {:induction false} PlanSize(m: Mem, img: Image, env: Env, lines: seq<Line>, n: nat)
    requires n <= |lines| && PlannedUpTo(m, img, env, lines, n).Some?
    ensures |PlannedUpTo(m, img, env, lines, n).value| == AtLines(lines, n)
    decreases n
  {
    hide Planned;
    if n > 0 {
      PlanSize(m, img, env, lines, n - 1);
    }
  }

  // The line a write of the plan comes from.
  lemma {:induction false} LineOf(lines: seq<Line>, n: nat, k: nat) returns (j: nat)
    requires n <= |lines| && k < AtLines(lines, n)
    ensures j < n && lines[j].At? && AtLines(lines, j) == k
    decreases n
  {
    if lines[n - 1].At? && k == AtLines(lines, n - 1) {
      j := n - 1;
    } else {
      j := LineOf(lines, n - 1, k);
    }
  }

  lemma {:induction false} AtLinesMonotone(lines: seq<Line>, i: nat, j: nat)
    requires i <= j <= |lines|
    ensures AtLines(lines, i) <= AtLines(lines, j)
    decreases j - i
  {
    if i < j {
      AtLinesMonotone(lines, i, j - 1);
    }
  }

  // No at line after i writes to the word that line i writes.
  ghost predicate LastAtItsPlace(m: Mem, img: Image, env: Env, lines: seq<Line>, i: nat)
    requires i < |lines| && lines[i].At? && Planned(m, img, env, lines[i]).Some?
  {
    forall j :: i < j < |lines| && lines[j].At? && Planned(m, img, env, lines[j]).Some? ==>
      Disjoint(Planned(m, img, env, lines[i]).value.addr, 4, Planned(m, img, env, lines[j]).value.addr, 4)
  }

  // After success, a line that no later one overlaps is what memory holds at its place.
  lemma AppliedLine(m: Mem, img: Image, lines: seq<Line>, i: nat)
    requires i < |lines| && lines[i].At? && Outcome(m, img, lines).Some?
    ensures var env := EnvUpTo(m, img, lines, |lines|).value;
            && Planned(m, img, env, lines[i]).Some?
            && var w := Planned(m, img, env, lines[i]).value;
            LastAtItsPlace(m, img, env, lines, i) ==>
              Load(WriteAll(m, Outcome(m, img, lines).value), w.addr, 4) == w.word
  {
    hide Planned, EnvUpTo, Load, PlannedUpTo, WriteAll;
    var (env, ws) := (EnvUpTo(m, img, lines, |lines|).value, Outcome(m, img, lines).value);
    var (n, k) := (|lines|, AtLines(lines, i));
    PlanHas(m, img, env, lines, i, n);
    if LastAtItsPlace(m, img, env, lines, i) {
      forall q | k < q < |ws|
        ensures Disjoint(ws[k].addr, 4, ws[q].addr, 4)
      {
        var j := LineOf(lines, n, q);
        PlanHas(m, img, env, lines, j, n);
        if j <= i {
          AtLinesMonotone(lines, j, i);
          assert false;
        }
      }
      LastWriteWins(m, ws, k);
    }
  }

  // In particular a b or bl line ends as a word that branches to its resolved target.
  lemma AppliedBranch(m: Mem, img: Image, lines: seq<Line>, i: nat)
    requires i < |lines| && lines[i].At? && lines[i].insn.Branch? && Outcome(m, img, lines).Some?
    ensures var env := EnvUpTo(m, img, lines, |lines|).value;
            && Planned(m, img, env, lines[i]).Some?
            && var (w, m') := (Planned(m, img, env, lines[i]).value, WriteAll(m, Outcome(m, img, lines).value));
            LastAtItsPlace(m, img, env, lines, i) ==>
              && Load(m', w.addr, 4) < TWO32
              && var b := Decode(Load(m', w.addr, 4));
              && (if lines[i].insn.link then b.Bl? else b.B?)
              && Resolve(m, img, env, lines[i].loc) == Some(w.addr)
              && Resolve(m, img, env, lines[i].insn.target) == Some(Wrap(w.addr + 4 * b.offset))
  {
    AppliedLine(m, img, lines, i);
    var env := EnvUpTo(m, img, lines, |lines|).value;
    BranchPlanned(m, img, env, lines[i]);
    hide Outcome, EnvUpTo, Decode, Load, WriteAll, LastAtItsPlace, Resolve, Encoded;
  }
}
