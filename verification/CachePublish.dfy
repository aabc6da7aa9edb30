// Publishing the startup cache (startup_cache_publish): every interleaving of publishers
// with distinct pids, readers, failures and crashes on one final path, step by step over
// directory entries and the files behind them.
module CachePublish {
  import opened Bits
  import opened Options
  import opened StartupCache
  import Fnv

  // Where a publisher is: how much of the draft is written, what it has read back, or
  // that only the rename is left.
  datatype Phase = Writing(written: nat) | Reading(got: seq<U8>) | Renaming

  datatype Publisher = Publisher(job: Job, phase: Phase)

  // content: what each file holds. final and temps: the directory entries, temps by pid.
  // mapped: files some reader has opened through the final path. begun: all jobs ever
  // started.
  datatype System = System(
    content: map<nat, seq<U8>>, next: nat, final: Option<nat>, temps: map<int, nat>,
    running: map<int, Publisher>, mapped: set<nat>, begun: set<Job>)

  datatype Action =
    | Begin(pid: int, job: Job)   // open the temporary file, truncating a leftover
    | Write(pid: int, n: nat)     // one write of write_all
    | Reopen(pid: int)            // all written; open for reading back
    | Read(pid: int, n: nat)      // one read of the payload
    | Seal(pid: int)              // pwrite of the header with both checksums
    | Rename(pid: int)
    | Fail(pid: int)              // an error path: unlink and give up
    | Crash(pid: int)             // stop, leaving the temporary file behind
    | Look                        // a reader opens the final path

  // Write data at offset at.
  function WriteAt(s: seq<U8>, at: nat, data: seq<U8>): seq<U8>
    requires at <= |s|
  {
    s[..at] + data + if at + |data| <= |s| then s[at + |data|..] else []
  }

  predicate Running(s: System, pid: int) {
    pid in s.running && pid in s.temps && s.temps[pid] in s.content
  }

  function Temp(s: System, pid: int): seq<U8>
    requires Running(s, pid)
  {
    s.content[s.temps[pid]]
  }

  predicate Enabled(s: System, a: Action) {
    match a
    case Begin(pid, job) => pid !in s.running && Fits(job)
    case Write(pid, n) =>
      && Running(s, pid) && s.running[pid].phase.Writing?
      && var (d, job) := (s.running[pid].phase.written, s.running[pid].job);
      && n > 0 && d + n <= |Draft(job)| && d <= |Temp(s, pid)|
    case Reopen(pid) =>
      && Running(s, pid) && s.running[pid].phase.Writing?
      && s.running[pid].phase.written == |Draft(s.running[pid].job)|
    case Read(pid, n) =>
      && Running(s, pid) && s.running[pid].phase.Reading?
      && n > 0 && HEADER_SIZE + |s.running[pid].phase.got| + n <= |Temp(s, pid)|
    case Seal(pid) =>
      && Running(s, pid) && s.running[pid].phase.Reading?
      && |s.running[pid].phase.got| == |Payload(s.running[pid].job)|
    case Rename(pid) => Running(s, pid) && s.running[pid].phase.Renaming?
    case Fail(pid) => Running(s, pid)
    case Crash(pid) => pid in s.running
    case Look => s.final.Some?
  }

  function WithTemp(s: System, pid: int, bytes: seq<U8>, phase: Phase): System
    requires Running(s, pid)
  {
    s.(content := s.content[s.temps[pid] := bytes], running := s.running[pid := s.running[pid].(phase := phase)])
  }

  function Next(s: System, a: Action): System
    requires Enabled(s, a)
  {
    match a
    case Begin(pid, job) =>
      var file := if pid in s.temps then s.temps[pid] else s.next;
      s.(content := s.content[file := []], next := s.next + 1, temps := s.temps[pid := file],
         running := s.running[pid := Publisher(job, Writing(0))], begun := s.begun + {job})
    case Write(pid, n) =>
      var d := s.running[pid].phase.written;
      WithTemp(s, pid, WriteAt(Temp(s, pid), d, Draft(s.running[pid].job)[d..d + n]), Writing(d + n))
    case Reopen(pid) => WithTemp(s, pid, Temp(s, pid), Reading([]))
    case Read(pid, n) =>
      var got := s.running[pid].phase.got;
      WithTemp(s, pid, Temp(s, pid),
               Reading(got + Temp(s, pid)[HEADER_SIZE + |got|..HEADER_SIZE + |got| + n]))
    case Seal(pid) =>
      var (job, got) := (s.running[pid].job, s.running[pid].phase.got);
      WithTemp(s, pid, WriteAt(Temp(s, pid), 0, Header(job, HeaderSum(job), Fnv.Hash(got))), Renaming)
    case Rename(pid) =>
      s.(final := Some(s.temps[pid]), temps := s.temps - {pid}, running := s.running - {pid})
    case Fail(pid) => s.(temps := s.temps - {pid}, running := s.running - {pid})
    case Crash(pid) => s.(running := s.running - {pid})
    case Look => s.(mapped := s.mapped + {s.final.value})
  }

  // --- What every step keeps ---

  // The file is the complete output of a publisher.
  ghost predicate Complete(s: System, file: nat) {
    file in s.content && exists j :: j in s.begun && Fits(j) && s.content[file] == File(j)
  }

  // A file that readers can see or still hold.
  predicate Public(s: System, file: nat) {
    s.final == Some(file) || file in s.mapped
  }

  // A publisher's temporary file is what its phase says.
  ghost predicate OnCourse(s: System, pid: int) {
    Running(s, pid) &&
    var (job, temp) := (s.running[pid].job, Temp(s, pid));
    && job in s.begun && Fits(job)
    && match s.running[pid].phase
       case Writing(d) => d <= |Draft(job)| && temp == Draft(job)[..d]
       case Reading(got) => temp == Draft(job) && got <= Payload(job)
       case Renaming => temp == File(job)
  }

  ghost predicate Inv(s: System) {
    && (forall f: nat :: Public(s, f) ==> f < s.next && Complete(s, f))
    && (forall pid :: pid in s.temps ==> s.temps[pid] < s.next && !Public(s, s.temps[pid]))
    && (forall p, q :: p in s.temps && q in s.temps && p != q ==> s.temps[p] != s.temps[q])
    && (forall pid :: pid in s.running ==> OnCourse(s, pid))
  }

  // The bytes a publisher writes next take it one step further.
  lemma WriteOn(job: Job, d: nat, n: nat)
    requires d + n <= |Draft(job)|
    ensures WriteAt(Draft(job)[..d], d, Draft(job)[d..d + n]) == Draft(job)[..d + n]
  {
    hide Draft;
  }

  lemma ReadOn(job: Job, got: seq<U8>, n: nat)
    requires got <= Payload(job) && HEADER_SIZE + |got| + n <= |Draft(job)|
    ensures got + Draft(job)[HEADER_SIZE + |got|..HEADER_SIZE + |got| + n] <= Payload(job)
  {
    hide Header, Payload, Fnv.Hash, HeaderSum;
    PrefixGrows(Header(job, HeaderSum(job), 0), Payload(job), got, n);
  }

  lemma PrefixGrows(h: seq<U8>, p: seq<U8>, got: seq<U8>, n: nat)
    requires got <= p && |got| + n <= |p|
    ensures got + (h + p)[|h| + |got|..|h| + |got| + n] <= p
  {
    var k := |got|;
    assert (h + p)[|h| + k..|h| + k + n] == p[k..k + n];
  }

  lemma SealOn(job: Job, got: seq<U8>)
    requires got <= Payload(job) && |got| == |Payload(job)|
    ensures WriteAt(Draft(job), 0, Header(job, HeaderSum(job), Fnv.Hash(got))) == File(job)
  {
    hide Header, Payload, Fnv.Hash, HeaderSum;
    assert got == Payload(job);
  }

  // Changing one publisher's temporary file and phase disturbs nothing else.
  lemma TempKeeps(s: System, pid: int, bytes: seq<U8>, phase: Phase)
    requires Inv(s) && Running(s, pid)
    requires OnCourse(WithTemp(s, pid, bytes, phase), pid)
    ensures Inv(WithTemp(s, pid, bytes, phase))
  {
    hide Fits, Draft, File, Payload;
    var t := WithTemp(s, pid, bytes, phase);
    forall f: nat | Public(t, f)
      ensures f < t.next && Complete(t, f)
    {
      assert Public(s, f) && f != s.temps[pid];
    }
    forall q | q in t.running
      ensures OnCourse(t, q)
    {
      if q != pid {
        assert OnCourse(s, q);
      }
    }
  }

  lemma BeginKeeps(s: System, pid: int, job: Job)
    requires Inv(s) && Enabled(s, Begin(pid, job))
    ensures Inv(Next(s, Begin(pid, job)))
  {
    hide Fits, Draft, File, Payload;
    var t := Next(s, Begin(pid, job));
    var file := t.temps[pid];
    forall f: nat | Public(t, f)
      ensures f < t.next && Complete(t, f) && f != file
    {
      assert Public(s, f) && Complete(s, f);
      var j :| j in s.begun && Fits(j) && s.content[f] == File(j);
      assert j in t.begun;
    }
    forall q | q in t.running
      ensures OnCourse(t, q)
    {
      if q != pid {
        assert OnCourse(s, q);
      } else {
        assert Draft(job)[..0] == [];
      }
    }
  }

  lemma RenameKeeps(s: System, pid: int)
    requires Inv(s) && Enabled(s, Rename(pid))
    ensures Inv(Next(s, Rename(pid)))
  {
    hide Fits, Draft, File, Payload;
    var t := Next(s, Rename(pid));
    assert OnCourse(s, pid);
    forall f: nat | Public(t, f)
      ensures f < t.next && Complete(t, f)
    {
      if f != s.temps[pid] {
        assert Public(s, f) && Complete(s, f);
      }
    }
    forall q | q in t.running
      ensures OnCourse(t, q)
    {
      assert OnCourse(s, q);
    }
  }

  lemma StopKeeps(s: System, a: Action)
    requires Inv(s) && Enabled(s, a) && (a.Fail? || a.Crash? || a.Look?)
    ensures Inv(Next(s, a))
  {
    hide Fits, Draft, File, Payload;
    var t := Next(s, a);
    forall f: nat | Public(t, f)
      ensures f < t.next && Complete(t, f)
    {
      assert Public(s, f) && Complete(s, f);
    }
    forall q | q in t.running
      ensures OnCourse(t, q)
    {
      assert OnCourse(s, q);
    }
  }

  lemma NextKeeps(s: System, a: Action)
    requires Inv(s) && Enabled(s, a)
    ensures Inv(Next(s, a))
  {
    hide Inv, Fits, Draft, File, Payload, Header, WriteAt;
    match a
    case Begin(pid, job) => BeginKeeps(s, pid, job);
    case Write(pid, n) => WriteKeeps(s, pid, n);
    case Reopen(pid) => ReopenKeeps(s, pid);
    case Read(pid, n) => ReadKeeps(s, pid, n);
    case Seal(pid) => SealKeeps(s, pid);
    case Rename(pid) => RenameKeeps(s, pid);
    case Fail(pid) => StopKeeps(s, a);
    case Crash(pid) => StopKeeps(s, a);
    case Look => StopKeeps(s, a);
  }

  lemma WriteKeeps(s: System, pid: int, n: nat)
    requires Inv(s) && Enabled(s, Write(pid, n))
    ensures Inv(Next(s, Write(pid, n)))
  {
    assert OnCourse(s, pid);
    hide Inv, Fits, Draft, File, Payload, WriteAt;
    var (d, job) := (s.running[pid].phase.written, s.running[pid].job);
    WriteOn(job, d, n);
    TempKeeps(s, pid, WriteAt(Temp(s, pid), d, Draft(job)[d..d + n]), Writing(d + n));
  }

  lemma ReopenKeeps(s: System, pid: int)
    requires Inv(s) && Enabled(s, Reopen(pid))
    ensures Inv(Next(s, Reopen(pid)))
  {
    assert OnCourse(s, pid);
    hide Inv, Fits, Draft, File, Payload;
    TempKeeps(s, pid, Temp(s, pid), Reading([]));
  }

  lemma ReadKeeps(s: System, pid: int, n: nat)
    requires Inv(s) && Enabled(s, Read(pid, n))
    ensures Inv(Next(s, Read(pid, n)))
  {
    assert OnCourse(s, pid);
    hide Inv, Fits, Draft, File, Payload;
    var (got, job) := (s.running[pid].phase.got, s.running[pid].job);
    ReadOn(job, got, n);
    TempKeeps(s, pid, Temp(s, pid), Reading(got + Temp(s, pid)[HEADER_SIZE + |got|..HEADER_SIZE + |got| + n]));
  }

  lemma SealKeeps(s: System, pid: int)
    requires Inv(s) && Enabled(s, Seal(pid))
    ensures Inv(Next(s, Seal(pid)))
  {
    assert OnCourse(s, pid);
    hide Inv, Fits, Draft, File, Payload, Header, WriteAt;
    var (job, got) := (s.running[pid].job, s.running[pid].phase.got);
    SealOn(job, got);
    TempKeeps(s, pid, WriteAt(Temp(s, pid), 0, Header(job, HeaderSum(job), Fnv.Hash(got))), Renaming);
  }

  // --- Whole runs ---

  const EMPTY := System(map[], 0, None, map[], map[], {}, {})

  predicate Run(s: System, actions: seq<Action>)
    decreases |actions|
  {
    actions == [] || (Enabled(s, actions[0]) && Run(Next(s, actions[0]), actions[1..]))
  }

  function End(s: System, actions: seq<Action>): System
    requires Run(s, actions)
    decreases |actions|
  {
    if actions == [] then s else End(Next(s, actions[0]), actions[1..])
  }

  lemma {:induction false} RunKeeps(s: System, actions: seq<Action>)
    requires Inv(s) && Run(s, actions)
    ensures Inv(End(s, actions))
    decreases |actions|
  {
    hide Inv, Next, Enabled;
    if actions != [] {
      NextKeeps(s, actions[0]);
      RunKeeps(Next(s, actions[0]), actions[1..]);
    }
  }

  // After any run, the final path is absent or holds one publisher's complete file, and
  // so does every file a reader still has mapped.
  lemma AlwaysComplete(actions: seq<Action>, file: nat)
    requires Run(EMPTY, actions) && Public(End(EMPTY, actions), file)
    ensures Complete(End(EMPTY, actions), file)
  {
    assert Inv(EMPTY);
    RunKeeps(EMPTY, actions);
    hide Complete, OnCourse;
  }

  // A reader that accepts gets exactly what some publisher stored under the same key.
  lemma ReaderGetsPublished(actions: seq<Action>, file: nat, k: Key) returns (j: Job)
    requires Run(EMPTY, actions) && Public(End(EMPTY, actions), file)
    requires file in End(EMPTY, actions).content && Accepts(End(EMPTY, actions).content[file], k)
    ensures j in End(EMPTY, actions).begun && j.key == k
    ensures var (s, v) := (End(EMPTY, actions).content[file], ViewOf(End(EMPTY, actions).content[file]));
            && v.cie == j.cie && v.fdes == j.fdes && v.patchCount == |j.patches|
            && v.ehAt + v.ehSize <= |s| && s[v.ehAt..v.ehAt + v.ehSize] == j.ehFrame
            && v.pairsAt + v.pairsSize <= |s| && s[v.pairsAt..v.pairsAt + v.pairsSize] == j.hdrPairs
            && v.patchesAt <= |s| && s[v.patchesAt..] == PatchesBytes(j.patches)
  {
    hide Run, End, Accepts, File, Fits, ViewOf, PatchesBytes, Public;
    AlwaysComplete(actions, file);
    var t := End(EMPTY, actions);
    j :| j in t.begun && Fits(j) && t.content[file] == File(j);
    Reopened(j, k);
    PartsReturned(j);
  }

  // A step leaves every public file as it is.
  lemma PublicStays(s: System, a: Action, file: nat)
    requires Inv(s) && Enabled(s, a) && Public(s, file)
    ensures file in s.content && file in Next(s, a).content && Next(s, a).content[file] == s.content[file]
  {
    hide Draft, File, Header, Payload, Fits, WriteAt, OnCourse;
  }

  // A file that a reader has mapped never changes again, whatever is published over it.
  lemma {:induction false} MappedStays(s: System, actions: seq<Action>, file: nat)
    requires Inv(s) && Run(s, actions) && file in s.mapped
    ensures file in s.content && file in End(s, actions).mapped
    ensures file in End(s, actions).content && End(s, actions).content[file] == s.content[file]
    decreases |actions|
  {
    assert Complete(s, file) by { assert Public(s, file); }
    hide Inv, Next, Enabled;
    if actions != [] {
      var t := Next(s, actions[0]);
      PublicStays(s, actions[0], file);
      MappedGrows(s, actions[0]);
      NextKeeps(s, actions[0]);
      MappedStays(t, actions[1..], file);
    }
  }

  lemma MappedGrows(s: System, a: Action)
    requires Enabled(s, a)
    ensures s.mapped <= Next(s, a).mapped
  {
    hide Draft, File, Header, Payload, Fits, WriteAt;
  }
}
