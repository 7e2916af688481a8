/**
 The rotation lock as a small-step protocol of many processes: workers
 (crates/whirl-worker/src/lock.rs:138-242) and the daemon, whose take has one exception for the
 worker it has just reaped (crates/whirld/src/lock.rs:396-559).

 One state file, `locks/rotate.lock`. A process creates it exclusively or opens the one that is
 there, probes the descriptor with `flock`, writes its record, and later drops the lock. Where the
 probe answers "unsupported" the file's existence is the lock.
 */
module RotateLock {
  import opened Basics

  type Proc = nat
  type Inode = nat

  datatype Mode = Flock | ExclFile

  /** Where a process stands in `take`, in holding, or in `drop`. */
  datatype Phase =
    | Idle
    | Existing(reaped: Option<Proc>)
    | Fresh(inode: Inode)
    | Opened(inode: Inode, reaped: Option<Proc>)
    | Removing(inode: Inode, dead: Proc)
    | Retrying
    | Granted(inode: Inode, mode: Mode)
    | Holding(inode: Inode, mode: Mode)
    | Unlinked(inode: Inode)
    | Dead

  /** The processes of a run, what each one's probe finds, and its process id. */
  datatype Setup = Setup(procs: set<Proc>, supports: map<Proc, bool>, pid: map<Proc, nat>, daemon: Proc)

  predicate WellFormed(u: Setup)
  {
    u.daemon in u.procs && u.supports.Keys == u.procs && u.pid.Keys == u.procs
  }

  datatype State = State(
    file: Option<Inode>, next: Inode, creator: map<Inode, Proc>,
    locks: map<Inode, Proc>, record: map<Inode, nat>, phase: map<Proc, Phase>)

  function Init(u: Setup): State
  {
    State(None, 0, map[], map[], map[], map p | p in u.procs :: Idle)
  }

  datatype Step =
    | Create(p: Proc, reaped: Option<Proc>)
    | Open(p: Proc)
    | Probe(p: Proc)
    | ProbeError(p: Proc)
    | CheckRecord(p: Proc)
    | RemoveReaped(p: Proc)
    | CreateAgain(p: Proc)
    | WriteRecord(p: Proc)
    | WriteError(p: Proc)
    | Unlink(p: Proc)
    | Close(p: Proc)
    | Crash(p: Proc)

  /** Closing a process's descriptor releases whatever `flock` it carried. */
  function Release(s: State, p: Proc): map<Inode, Proc>
  {
    map i | i in s.locks && s.locks[i] != p :: s.locks[i]
  }

  function Become(s: State, p: Proc, phase: Phase): State
  {
    s.(phase := s.phase[p := phase])
  }

  /** Leave `take` empty-handed: the descriptor, if any, is closed. */
  function GiveUp(s: State, p: Proc): State
  {
    Become(s, p, Idle).(locks := Release(s, p))
  }

  /** `O_CREAT|O_EXCL`: a new file if there is none, otherwise the given phase. */
  function CreateExclusive(s: State, p: Proc, otherwise: Phase): State
  {
    if s.file.None? then
      Become(s, p, Fresh(s.next)).(file := Some(s.next), next := s.next + 1, creator := s.creator[s.next := p])
    else Become(s, p, otherwise)
  }

  /** Does someone else's descriptor hold the `flock` of this inode? */
  predicate HeldByAnother(s: State, p: Proc, i: Inode)
  {
    i in s.locks && s.locks[i] != p
  }

  /** Only the daemon takes the lock with a reaped worker in hand, and that worker has exited. */
  predicate MayClaimReaped(u: Setup, s: State, p: Proc, reaped: Option<Proc>)
  {
    reaped.Some? ==> p == u.daemon && reaped.value != p && reaped.value in s.phase && s.phase[reaped.value].Dead?
  }

  /** The record in the file carries the reaped worker's process id. */
  predicate NamesReaped(u: Setup, s: State, i: Inode, reaped: Option<Proc>)
  {
    reaped.Some? && reaped.value in u.pid && i in s.record && s.record[i] == u.pid[reaped.value]
  }

  /** The outcome of one step, or `None` when the process is not at that point. */
  function Apply(u: Setup, s: State, step: Step): Option<State>
    requires WellFormed(u)
  {
    var p := step.p;
    if p !in s.phase || p !in u.procs then None
    else
      var at := s.phase[p];
      match step
      case Create(_, reaped) =>
        if at.Idle? && MayClaimReaped(u, s, p, reaped) then Some(CreateExclusive(s, p, Existing(reaped))) else None
      case Open(_) =>
        if !at.Existing? then None
        else Some(if s.file.Some? then Become(s, p, Opened(s.file.value, at.reaped)) else GiveUp(s, p))
      case Probe(_) =>
        if at.Fresh? && !u.supports[p] then Some(Become(s, p, Granted(at.inode, ExclFile)))
        else if (at.Fresh? || at.Opened?) && u.supports[p] then
          Some(if HeldByAnother(s, p, at.inode) then GiveUp(s, p)
               else Become(s, p, Granted(at.inode, Flock)).(locks := s.locks[at.inode := p]))
        else None
      case CheckRecord(_) =>
        if !at.Opened? || u.supports[p] then None
        else Some(if NamesReaped(u, s, at.inode, at.reaped) then Become(s, p, Removing(at.inode, at.reaped.value))
                  else GiveUp(s, p))
      case RemoveReaped(_) => if at.Removing? then Some(Become(s, p, Retrying).(file := None)) else None
      case CreateAgain(_) => if at.Retrying? then Some(CreateExclusive(s, p, Idle)) else None
      case WriteRecord(_) =>
        if !at.Granted? then None
        else
          var t := Become(s, p, Holding(at.inode, at.mode));
          Some(if p == u.daemon && at.mode.Flock? then t else t.(record := s.record[at.inode := u.pid[p]]))
      case Unlink(_) =>
        if at.Holding? && at.mode.ExclFile? then Some(Become(s, p, Unlinked(at.inode)).(file := None)) else None
      case Close(_) =>
        if (at.Holding? && at.mode.Flock?) || at.Unlinked? then Some(GiveUp(s, p)) else None
      case ProbeError(_) => if at.Fresh? || at.Opened? then Some(GiveUp(s, p)) else None
      case WriteError(_) => if at.Granted? then Some(GiveUp(s, p)) else None
      case Crash(_) => if at.Dead? then None else Some(Become(s, p, Dead).(locks := Release(s, p)))
  }

  /** The state a schedule of steps leads to, if every step was possible. */
  function Run(u: Setup, steps: seq<Step>): Option<State>
    requires WellFormed(u)
  {
    if |steps| == 0 then Some(Init(u))
    else
      var before := Run(u, steps[..|steps| - 1]);
      if before.None? then None else Apply(u, before.value, steps[|steps| - 1])
  }

  /** A process that has been told the lock is its own. */
  predicate Holds(s: State, p: Proc)
  {
    p in s.phase && (s.phase[p].Granted? || s.phase[p].Holding?)
  }

  predicate AtMostOneHolder(s: State)
  {
    forall p, q :: p in s.phase && q in s.phase && Holds(s, p) && Holds(s, q) ==> p == q
  }

  /** Mutual exclusion, over every schedule. */
  ghost predicate MutuallyExclusive(u: Setup)
    requires WellFormed(u)
  {
    forall steps: seq<Step> :: Run(u, steps).Some? ==> AtMostOneHolder(Run(u, steps).value)
  }

  // --- What one step can touch ---------------------------------------------------------

  /** A step moves its own process, and only releases or takes its own `flock`. */
  ghost predicate OwnMove(s: State, t: State, p: Proc)
  {
    && p in s.phase && p in t.phase && !s.phase[p].Dead? && t.phase == s.phase[p := t.phase[p]]
    && (forall i :: i in s.locks && s.locks[i] != p ==> i in t.locks && t.locks[i] == s.locks[i])
  }

  predicate FileKept(s: State, t: State)
  {
    t.file == s.file && t.next == s.next && t.creator == s.creator
  }

  predicate FileCreated(s: State, t: State, p: Proc)
  {
    s.file.None? && t.file == Some(s.next) && t.next == s.next + 1 && t.creator == s.creator[s.next := p]
  }

  /** The file goes only when its holder drops the lock, or at the daemon's removal. */
  predicate FileRemoved(s: State, t: State, p: Proc)
    requires p in s.phase
  {
    t.file == None && t.next == s.next && t.creator == s.creator
    && ((s.phase[p].Holding? && s.phase[p].mode.ExclFile?) || s.phase[p].Removing?)
  }

  /** The steps of a take. */
  predicate Taking(step: Step)
  {
    step.Create? || step.Open? || step.Probe? || step.CheckRecord? || step.RemoveReaped? || step.CreateAgain?
  }

  ghost predicate Effect(s: State, t: State, p: Proc)
  {
    OwnMove(s, t, p) && (FileKept(s, t) || FileCreated(s, t, p) || FileRemoved(s, t, p))
  }

  lemma TakingEffect(u: Setup, s: State, step: Step)
    requires WellFormed(u) && Apply(u, s, step).Some? && Taking(step)
    ensures Effect(s, Apply(u, s, step).value, step.p)
  {
  }

  lemma OtherEffect(u: Setup, s: State, step: Step)
    requires WellFormed(u) && Apply(u, s, step).Some? && !Taking(step)
    ensures Effect(s, Apply(u, s, step).value, step.p)
  {
  }

  lemma StepEffect(u: Setup, s: State, step: Step)
    requires WellFormed(u) && Apply(u, s, step).Some?
    ensures Effect(s, Apply(u, s, step).value, step.p) && step.p in u.procs
  {
    if Taking(step) {
      TakingEffect(u, s, step);
    } else {
      OtherEffect(u, s, step);
    }
  }

  // --- When it holds -----------------------------------------------------------------

  /** Every process's probe finds the same capability. */
  predicate Uniform(u: Setup)
    requires WellFormed(u)
  {
    forall p, q :: p in u.procs && q in u.procs ==> u.supports[p] == u.supports[q]
  }

  /** No two workers of the run carry the same process id. */
  predicate NoRecycledPid(u: Setup)
    requires WellFormed(u)
  {
    forall p, q :: p in u.procs && q in u.procs && p != q && p != u.daemon && q != u.daemon ==> u.pid[p] != u.pid[q]
  }

  /** What every reachable state satisfies where `flock` works: the file stays, and its `flock` names the holder. */
  ghost predicate FlockInvariant(u: Setup, s: State)
    requires WellFormed(u)
  {
    && s.phase.Keys == u.procs
    && (s.file.None? ==> s.next == 0) && (s.file.Some? ==> s.file.value == 0 && s.next == 1)
    && (forall p :: p in s.phase ==> FlockPhase(s, p))
  }

  predicate FlockPhase(s: State, p: Proc)
    requires p in s.phase
  {
    match s.phase[p]
    case Fresh(i) => s.file == Some(i)
    case Opened(i, _) => s.file == Some(i)
    case Granted(i, mode) => s.file == Some(i) && mode == Flock && i in s.locks && s.locks[i] == p
    case Holding(i, mode) => s.file == Some(i) && mode == Flock && i in s.locks && s.locks[i] == p
    case Removing(_, _) => false
    case Retrying => false
    case Unlinked(_) => false
    case _ => true
  }

  lemma FlockOthers(u: Setup, s: State, t: State, p: Proc, q: Proc)
    requires WellFormed(u) && FlockInvariant(u, s) && OwnMove(s, t, p)
    requires FileKept(s, t) || FileCreated(s, t, p) || FileRemoved(s, t, p)
    requires q in s.phase && q != p
    ensures q in t.phase && FlockPhase(t, q)
  {
    assert FlockPhase(s, q) && FlockPhase(s, p);
  }

  lemma FlockFile(u: Setup, s: State, t: State, p: Proc)
    requires WellFormed(u) && FlockInvariant(u, s) && OwnMove(s, t, p)
    requires FileKept(s, t) || FileCreated(s, t, p) || FileRemoved(s, t, p)
    ensures t.phase.Keys == u.procs && (s.file.Some? ==> t.file == s.file)
    ensures (t.file.None? ==> t.next == 0) && (t.file.Some? ==> t.file.value == 0 && t.next == 1)
  {
    assert FlockPhase(s, p);
  }

  lemma FlockSelf(u: Setup, s: State, step: Step)
    requires WellFormed(u) && step.p in u.procs && step.p in s.phase && FlockPhase(s, step.p) && Apply(u, s, step).Some?
    requires u.supports[step.p]
    ensures step.p in Apply(u, s, step).value.phase && FlockPhase(Apply(u, s, step).value, step.p)
  {
  }

  lemma FlockStep(u: Setup, s: State, step: Step)
    requires WellFormed(u) && FlockInvariant(u, s) && Apply(u, s, step).Some?
    requires forall p :: p in u.procs ==> u.supports[p]
    ensures FlockInvariant(u, Apply(u, s, step).value)
  {
    hide Apply, FlockPhase, FileKept, FileCreated, FileRemoved;
    var t := Apply(u, s, step).value;
    StepEffect(u, s, step);
    FlockSelf(u, s, step);
    FlockFile(u, s, t, step.p);
    forall q | q in s.phase && q != step.p
      ensures FlockPhase(t, q)
    {
      FlockOthers(u, s, t, step.p, q);
    }
  }

  /** The phases in which the file at the path must be the one this process created. */
  predicate OwnsFile(s: State, p: Proc, i: Inode)
  {
    s.file == Some(i) && i in s.creator && s.creator[i] == p
  }

  /** The daemon may remove this file: the process that left it there cannot be holding the lock. */
  predicate LeftBehind(u: Setup, s: State, i: Inode)
  {
    s.file == Some(i) && i in s.creator && s.creator[i] in s.phase
    && (s.creator[i] == u.daemon || s.phase[s.creator[i]].Dead?)
  }

  /** What every reachable state satisfies under the exclusive-file fallback: the file names its one owner. */
  ghost predicate ExclInvariant(u: Setup, s: State)
    requires WellFormed(u)
  {
    && s.phase.Keys == u.procs && FilesConsistent(u, s)
    && (forall p :: p in s.phase ==> ExclPhase(u, s, p))
  }

  /** Every file has a known creator, and a record names its creator's process id. */
  ghost predicate FilesConsistent(u: Setup, s: State)
    requires WellFormed(u)
  {
    && s.locks == map[]
    && (s.file.Some? ==> s.file.value < s.next)
    && (forall i: Inode :: i in s.creator <==> i < s.next)
    && (forall i :: i in s.creator ==> s.creator[i] in u.procs)
    && (forall i :: i in s.record ==> i in s.creator && s.record[i] == u.pid[s.creator[i]])
  }

  predicate ExclPhase(u: Setup, s: State, p: Proc)
    requires p in s.phase
  {
    match s.phase[p]
    case Fresh(i) => OwnsFile(s, p, i)
    case Granted(i, mode) => mode == ExclFile && OwnsFile(s, p, i)
    case Holding(i, mode) => mode == ExclFile && OwnsFile(s, p, i)
    case Existing(reaped) => MayClaimReaped(u, s, p, reaped)
    case Opened(i, reaped) => i in s.creator && MayClaimReaped(u, s, p, reaped)
                              && (Abandoned(u, s, i, reaped) ==> s.file == Some(i))
    case Removing(i, _) => p == u.daemon && LeftBehind(u, s, i)
    case Retrying => p == u.daemon
    case _ => true
  }

  /** The daemon's own file, or that of the worker it has reaped: nobody but the daemon can remove it now. */
  predicate Abandoned(u: Setup, s: State, i: Inode, reaped: Option<Proc>)
  {
    reaped.Some? && i in s.creator && (s.creator[i] == u.daemon || s.creator[i] == reaped.value)
  }

  lemma ExclOthers(u: Setup, s: State, t: State, p: Proc, q: Proc)
    requires WellFormed(u) && ExclInvariant(u, s) && OwnMove(s, t, p)
    requires FileKept(s, t) || FileCreated(s, t, p) || FileRemoved(s, t, p)
    requires q in s.phase && q != p
    ensures q in t.phase && ExclPhase(u, t, q)
  {
    assert ExclPhase(u, s, q) && ExclPhase(u, s, p);
  }

  lemma ExclSelfTaking(u: Setup, s: State, step: Step)
    requires WellFormed(u) && step.p in u.procs && step.p in s.phase && ExclPhase(u, s, step.p)
    requires FilesConsistent(u, s) && NoRecycledPid(u) && !u.supports[step.p]
    requires Taking(step) && Apply(u, s, step).Some?
    ensures step.p in Apply(u, s, step).value.phase && ExclPhase(u, Apply(u, s, step).value, step.p)
  {
    if step.CheckRecord? {
      RecordNamesCreator(u, s, s.phase[step.p].inode, s.phase[step.p].reaped);
    }
  }

  /** The record check accepts only the reaped worker's file or the daemon's own. */
  lemma RecordNamesCreator(u: Setup, s: State, i: Inode, reaped: Option<Proc>)
    requires WellFormed(u) && FilesConsistent(u, s) && NoRecycledPid(u)
    requires reaped.Some? ==> reaped.value != u.daemon
    ensures NamesReaped(u, s, i, reaped) ==> Abandoned(u, s, i, reaped)
  {
  }

  lemma ExclSelfOther(u: Setup, s: State, step: Step)
    requires WellFormed(u) && step.p in u.procs && step.p in s.phase && ExclPhase(u, s, step.p)
    requires !u.supports[step.p] && !Taking(step) && Apply(u, s, step).Some?
    ensures step.p in Apply(u, s, step).value.phase && ExclPhase(u, Apply(u, s, step).value, step.p)
  {
  }

  lemma ExclFiles(u: Setup, s: State, step: Step)
    requires WellFormed(u) && step.p in u.procs && step.p in s.phase && ExclPhase(u, s, step.p)
    requires FilesConsistent(u, s) && !u.supports[step.p] && Apply(u, s, step).Some?
    ensures FilesConsistent(u, Apply(u, s, step).value)
  {
  }

  lemma ExclStep(u: Setup, s: State, step: Step)
    requires WellFormed(u) && ExclInvariant(u, s) && Apply(u, s, step).Some?
    requires NoRecycledPid(u) && forall p :: p in u.procs ==> !u.supports[p]
    ensures ExclInvariant(u, Apply(u, s, step).value)
  {
    hide Apply, ExclPhase, FilesConsistent, FileKept, FileCreated, FileRemoved, NoRecycledPid;
    var t := Apply(u, s, step).value;
    StepEffect(u, s, step);
    if Taking(step) {
      ExclSelfTaking(u, s, step);
    } else {
      ExclSelfOther(u, s, step);
    }
    ExclFiles(u, s, step);
    forall q | q in s.phase && q != step.p
      ensures ExclPhase(u, t, q)
    {
      ExclOthers(u, s, t, step.p, q);
    }
  }

  // --- Main results ------------------------------------------------------------------

  lemma {:induction false} Reachable(u: Setup, steps: seq<Step>)
    requires WellFormed(u) && Run(u, steps).Some?
    requires Uniform(u) && (u.supports[u.daemon] || NoRecycledPid(u))
    ensures AtMostOneHolder(Run(u, steps).value)
    ensures if u.supports[u.daemon] then FlockInvariant(u, Run(u, steps).value) else ExclInvariant(u, Run(u, steps).value)
  {
    hide Apply;
    if |steps| > 0 {
      var front := steps[..|steps| - 1];
      Reachable(u, front);
      if u.supports[u.daemon] {
        FlockStep(u, Run(u, front).value, steps[|steps| - 1]);
      } else {
        ExclStep(u, Run(u, front).value, steps[|steps| - 1]);
      }
    }
    OneHolder(u, Run(u, steps).value);
  }

  lemma OneHolder(u: Setup, s: State)
    requires WellFormed(u) && (FlockInvariant(u, s) || ExclInvariant(u, s))
    ensures AtMostOneHolder(s)
  {
    forall p, q | p in s.phase && q in s.phase && Holds(s, p) && Holds(s, q)
      ensures p == q
    {
      if FlockInvariant(u, s) {
        assert FlockPhase(s, p) && FlockPhase(s, q);
      } else {
        assert ExclPhase(u, s, p) && ExclPhase(u, s, q);
      }
    }
  }

  /** One more step of a schedule. */
  lemma Extend(u: Setup, steps: seq<Step>, step: Step, s: State, t: State)
    requires WellFormed(u) && Run(u, steps) == Some(s) && Apply(u, s, step) == Some(t)
    ensures Run(u, steps + [step]) == Some(t)
  {
    assert (steps + [step])[..|steps|] == steps;
  }

  /** A process without `flock` creates the file and is granted the lock. */
  lemma CreatorIsGranted(u: Setup, p: Proc) returns (steps: seq<Step>, s: State)
    requires WellFormed(u) && p in u.procs && !u.supports[p]
    ensures Run(u, steps) == Some(s)
    ensures s.file == Some(0) && s.locks == map[] && s.phase == (map r | r in u.procs :: Idle)[p := Granted(0, ExclFile)]
  {
    var s0 := Init(u);
    var s1 := Apply(u, s0, Create(p, None)).value;
    s := Apply(u, s1, Probe(p)).value;
    hide Apply, Init, Run;
    steps := [];
    Start(u);
    Extend(u, steps, Create(p, None), s0, s1); steps := steps + [Create(p, None)];
    Extend(u, steps, Probe(p), s1, s); steps := steps + [Probe(p)];
  }

  /** A process that gets `flock` where another one does not shares the lock with it. */
  lemma MixedCapabilityBreaks(u: Setup, p: Proc, q: Proc) returns (steps: seq<Step>)
    requires WellFormed(u) && p in u.procs && q in u.procs && !u.supports[p] && u.supports[q]
    ensures Run(u, steps).Some? && Holds(Run(u, steps).value, p) && Holds(Run(u, steps).value, q)
  {
    hide Run;
    var s2: State;
    steps, s2 := CreatorIsGranted(u, p);
    var s3 := Apply(u, s2, Create(q, None)).value;
    var s4 := Apply(u, s3, Open(q)).value;
    var s5 := Apply(u, s4, Probe(q)).value;
    hide Apply;
    Extend(u, steps, Create(q, None), s2, s3); steps := steps + [Create(q, None)];
    Extend(u, steps, Open(q), s3, s4); steps := steps + [Open(q)];
    Extend(u, steps, Probe(q), s4, s5); steps := steps + [Probe(q)];
  }

  lemma Start(u: Setup)
    requires WellFormed(u)
    ensures Run(u, []) == Some(Init(u))
  {
  }

  /** A worker holds the lock under a file whose record carries its process id. */
  lemma WorkerHolds(u: Setup, q: Proc, w: Proc) returns (steps: seq<Step>, s: State)
    requires WellFormed(u) && q in u.procs && w in u.procs && q != w && !u.supports[q]
    ensures Run(u, steps) == Some(s)
    ensures s == State(Some(0), 1, map[0 := q], map[], map[0 := u.pid[q]],
                       (map p | p in u.procs :: Idle)[w := Dead][q := Holding(0, ExclFile)])
  {
    var s0 := Init(u);
    var s1 := Apply(u, s0, Crash(w)).value;
    var s2 := Apply(u, s1, Create(q, None)).value;
    var s3 := Apply(u, s2, Probe(q)).value;
    s := Apply(u, s3, WriteRecord(q)).value;
    assert Release(s0, w) == map[];
    assert s1 == State(None, 0, map[], map[], map[], (map p | p in u.procs :: Idle)[w := Dead]);
    assert s.phase == (map p | p in u.procs :: Idle)[w := Dead][q := Holding(0, ExclFile)];
    hide Apply, Init, Run;
    steps := [];
    Start(u);
    Extend(u, steps, Crash(w), s0, s1); steps := steps + [Crash(w)];
    Extend(u, steps, Create(q, None), s1, s2); steps := steps + [Create(q, None)];
    Extend(u, steps, Probe(q), s2, s3); steps := steps + [Probe(q)];
    Extend(u, steps, WriteRecord(q), s3, s); steps := steps + [WriteRecord(q)];
  }

  /** From the decision to remove on: the file goes, and a new one is created and granted. */
  lemma RemovedAndTaken(u: Setup, s: State, d: Proc) returns (removed: State, created: State, granted: State)
    requires WellFormed(u) && d in u.procs && d in s.phase && s.phase[d].Removing? && !u.supports[d]
    ensures Apply(u, s, RemoveReaped(d)) == Some(removed) && Apply(u, removed, CreateAgain(d)) == Some(created)
    ensures Apply(u, created, Probe(d)) == Some(granted) && Holds(granted, d)
    ensures forall q :: q in s.phase && q != d && Holds(s, q) ==> Holds(granted, q)
  {
    removed := Apply(u, s, RemoveReaped(d)).value;
    created := Apply(u, removed, CreateAgain(d)).value;
    granted := Apply(u, created, Probe(d)).value;
  }

  /** The daemon's removal, aimed at a dead worker, takes a live worker's file if both carry one process id. */
  lemma RecycledPidBreaks(u: Setup, q: Proc, w: Proc) returns (steps: seq<Step>)
    requires WellFormed(u) && q in u.procs && w in u.procs && q != w && q != u.daemon && w != u.daemon
    requires forall p :: p in u.procs ==> !u.supports[p]
    requires u.pid[q] == u.pid[w]
    ensures Run(u, steps).Some? && Holds(Run(u, steps).value, q) && Holds(Run(u, steps).value, u.daemon)
  {
    hide Run;
    var d, s0: State := u.daemon, Init(u);
    steps, s0 := WorkerHolds(u, q, w);
    var s1 := Apply(u, s0, Create(d, Some(w))).value;
    var s2 := Apply(u, s1, Open(d)).value;
    var s3 := Apply(u, s2, CheckRecord(d)).value;
    var s4, s5, s6 := RemovedAndTaken(u, s3, d);
    hide Apply, Init;
    Extend(u, steps, Create(d, Some(w)), s0, s1); steps := steps + [Create(d, Some(w))];
    Extend(u, steps, Open(d), s1, s2); steps := steps + [Open(d)];
    Extend(u, steps, CheckRecord(d), s2, s3); steps := steps + [CheckRecord(d)];
    Extend(u, steps, RemoveReaped(d), s3, s4); steps := steps + [RemoveReaped(d)];
    Extend(u, steps, CreateAgain(d), s4, s5); steps := steps + [CreateAgain(d)];
    Extend(u, steps, Probe(d), s5, s6); steps := steps + [Probe(d)];
  }

  /**
   Main result: at most one process holds the lock under every schedule if and only if all probes
   find the same capability and, where that is the fallback, no two workers share a process id.
   */
  lemma MutualExclusion(u: Setup)
    requires WellFormed(u)
    ensures MutuallyExclusive(u) <==> Uniform(u) && (u.supports[u.daemon] || NoRecycledPid(u))
  {
    hide Run;
    if Uniform(u) && (u.supports[u.daemon] || NoRecycledPid(u)) {
      forall steps: seq<Step> | Run(u, steps).Some?
        ensures AtMostOneHolder(Run(u, steps).value)
      {
        Reachable(u, steps);
      }
    } else if !Uniform(u) {
      var p, q :| p in u.procs && q in u.procs && !u.supports[p] && u.supports[q];
      var steps := MixedCapabilityBreaks(u, p, q);
      assert !AtMostOneHolder(Run(u, steps).value);
    } else {
      var q, w :| q in u.procs && w in u.procs && q != w && q != u.daemon && w != u.daemon && u.pid[q] == u.pid[w];
      var steps := RecycledPidBreaks(u, q, w);
      assert !AtMostOneHolder(Run(u, steps).value);
    }
  }

  /**
   Main result: the lock file is only ever removed by the process that created it, or by the daemon
   when its creator is the daemon itself or dead.
   */
  lemma OnlyOwnFileIsRemoved(u: Setup, steps: seq<Step>, step: Step)
    requires WellFormed(u) && Uniform(u) && (u.supports[u.daemon] || NoRecycledPid(u))
    requires Run(u, steps).Some? && Apply(u, Run(u, steps).value, step).Some?
    requires var s := Run(u, steps).value;
             s.file.Some? && Apply(u, s, step).value.file != s.file
    ensures !u.supports[u.daemon]
    ensures var s := Run(u, steps).value;
            s.file.value in s.creator && s.creator[s.file.value] in s.phase
            && (s.creator[s.file.value] == step.p
                || (step.p == u.daemon && s.phase[s.creator[s.file.value]].Dead?))
  {
    var s := Run(u, steps).value;
    hide Run, Apply;
    Reachable(u, steps);
    StepEffect(u, s, step);
    if u.supports[u.daemon] {
      FlockFile(u, s, Apply(u, s, step).value, step.p);
    } else {
      assert ExclPhase(u, s, step.p);
    }
  }

  /**
   A file created exclusively can read as held: under `flock` another process may open and lock it
   between the creation and the creator's own probe.
   */
  lemma FreshFileCanBeHeld(u: Setup, p: Proc, q: Proc) returns (steps: seq<Step>, s: State)
    requires WellFormed(u) && p in u.procs && q in u.procs && p != q && u.supports[p] && u.supports[q]
    ensures Run(u, steps) == Some(s)
    ensures p in s.phase && s.phase[p] == Fresh(0) && HeldByAnother(s, p, 0) && Holds(s, q)
    ensures Apply(u, s, Probe(p)) == Some(GiveUp(s, p))
  {
    var s0 := Init(u);
    var s1 := Apply(u, s0, Create(p, None)).value;
    var s2 := Apply(u, s1, Create(q, None)).value;
    var s3 := Apply(u, s2, Open(q)).value;
    s := Apply(u, s3, Probe(q)).value;
    assert Apply(u, s, Probe(p)) == Some(GiveUp(s, p));
    hide Apply, Init, Run;
    steps := [];
    Start(u);
    Extend(u, steps, Create(p, None), s0, s1); steps := steps + [Create(p, None)];
    Extend(u, steps, Create(q, None), s1, s2); steps := steps + [Create(q, None)];
    Extend(u, steps, Open(q), s2, s3); steps := steps + [Open(q)];
    Extend(u, steps, Probe(q), s3, s); steps := steps + [Probe(q)];
  }

  /** A process that has just created the file, on a system with `flock`, finds it held by another. */
  ghost predicate FreshButHeld(u: Setup, s: State, p: Proc)
    requires WellFormed(u)
  {
    p in u.procs && p in s.phase && s.phase[p].Fresh? && u.supports[p] && HeldByAnother(s, p, s.phase[p].inode)
  }

  /** Only processes whose probe supports `flock` carry one. */
  predicate LocksSupported(u: Setup, s: State)
    requires WellFormed(u)
  {
    forall i :: i in s.locks ==> s.locks[i] in u.procs && u.supports[s.locks[i]]
  }

  lemma LocksSupportedStep(u: Setup, s: State, step: Step)
    requires WellFormed(u) && LocksSupported(u, s) && Apply(u, s, step).Some?
    ensures LocksSupported(u, Apply(u, s, step).value)
  {
  }

  lemma {:induction false} LocksAlwaysSupported(u: Setup, steps: seq<Step>)
    requires WellFormed(u) && Run(u, steps).Some?
    ensures LocksSupported(u, Run(u, steps).value)
  {
    hide Apply, LocksSupported;
    if |steps| > 0 {
      var front := steps[..|steps| - 1];
      LocksAlwaysSupported(u, front);
      LocksSupportedStep(u, Run(u, front).value, steps[|steps| - 1]);
    } else {
      Start(u);
      assert LocksSupported(u, Init(u)) by { NoLocksYet(u); }
    }
  }

  lemma NoLocksYet(u: Setup)
    requires WellFormed(u)
    ensures LocksSupported(u, Init(u))
  {
  }

  /**
   Main result: that a created file is held by no one else, as the code's comment has it, fails under
   some schedule exactly when the creator's probe and some other process's both find `flock`.
   */
  lemma FreshFileIsHeldExactlyWhen(u: Setup, p: Proc)
    requires WellFormed(u) && p in u.procs
    ensures
      (exists steps :: Run(u, steps).Some? && FreshButHeld(u, Run(u, steps).value, p))
      <==> u.supports[p] && exists q :: q in u.procs && q != p && u.supports[q]
  {
    hide Run, Apply, LocksSupported;
    if steps :| Run(u, steps).Some? && FreshButHeld(u, Run(u, steps).value, p) {
      LocksAlwaysSupported(u, steps);
      HolderSupports(u, Run(u, steps).value, p);
    }
    if u.supports[p] {
      if q :| q in u.procs && q != p && u.supports[q] {
        var steps, s := FreshFileCanBeHeld(u, p, q);
        assert FreshButHeld(u, Run(u, steps).value, p);
      }
    }
  }

  lemma HolderSupports(u: Setup, s: State, p: Proc)
    requires WellFormed(u) && LocksSupported(u, s) && FreshButHeld(u, s, p)
    ensures exists q :: q in u.procs && q != p && u.supports[q]
  {
    assert s.locks[s.phase[p].inode] in u.procs;
  }

  // --- A lock that is let go of can be taken again ---------------------------------------------

  /** The inode a phase speaks of, if any. */
  predicate Below(at: Phase, n: Inode)
  {
    match at
    case Fresh(i) => i < n
    case Opened(i, _) => i < n
    case Removing(i, _) => i < n
    case Granted(i, _) => i < n
    case Holding(i, _) => i < n
    case Unlinked(i) => i < n
    case _ => true
  }

  /** Every `flock` belongs to a process that was told it has it, and every inode in use has been created. */
  ghost predicate LocksAreOwned(s: State)
  {
    && (s.file.Some? ==> s.file.value < s.next)
    && (forall p :: p in s.phase ==> Below(s.phase[p], s.next))
    && (forall i :: i in s.locks ==> OwnsFlock(s, s.locks[i], i))
  }

  predicate OwnsFlock(s: State, p: Proc, i: Inode)
  {
    p in s.phase && (s.phase[p] == Granted(i, Flock) || s.phase[p] == Holding(i, Flock))
  }

  /** A process that is not granted carries no `flock`. */
  lemma NotGrantedOwnsNone(s: State, p: Proc)
    requires LocksAreOwned(s) && p in s.phase && !((s.phase[p].Granted? || s.phase[p].Holding?) && s.phase[p].mode.Flock?)
    ensures forall i :: i in s.locks ==> s.locks[i] != p
  {
    forall i | i in s.locks
      ensures s.locks[i] != p
    {
      assert OwnsFlock(s, s.locks[i], i);
    }
  }

  /** Another phase, which keeps what the process carries. */
  lemma OwnedBecome(s: State, p: Proc, phase: Phase)
    requires LocksAreOwned(s) && p in s.phase && Below(phase, s.next)
    requires forall i :: i in s.locks && s.locks[i] == p ==> phase == Granted(i, Flock) || phase == Holding(i, Flock)
    ensures LocksAreOwned(Become(s, p, phase))
  {
    var t := Become(s, p, phase);
    forall i | i in t.locks
      ensures OwnsFlock(t, t.locks[i], i)
    {
      assert OwnsFlock(s, s.locks[i], i);
    }
  }

  lemma OwnedRelease(s: State, p: Proc, phase: Phase)
    requires LocksAreOwned(s) && p in s.phase && (phase.Idle? || phase.Dead?)
    ensures LocksAreOwned(Become(s, p, phase).(locks := Release(s, p)))
  {
    var t := Become(s, p, phase).(locks := Release(s, p));
    forall i | i in t.locks
      ensures OwnsFlock(t, t.locks[i], i)
    {
      assert OwnsFlock(s, s.locks[i], i);
    }
  }

  lemma OwnedCreate(s: State, p: Proc, otherwise: Phase)
    requires LocksAreOwned(s) && p in s.phase && (otherwise.Idle? || otherwise.Existing?)
    requires forall i :: i in s.locks ==> s.locks[i] != p
    ensures LocksAreOwned(CreateExclusive(s, p, otherwise))
  {
    var t := CreateExclusive(s, p, otherwise);
    forall i | i in t.locks
      ensures OwnsFlock(t, t.locks[i], i)
    {
      assert OwnsFlock(s, s.locks[i], i);
    }
    assert forall q :: q in s.phase ==> Below(s.phase[q], s.next);
  }

  lemma OwnedGrant(s: State, p: Proc, i: Inode)
    requires LocksAreOwned(s) && p in s.phase && i < s.next && forall j :: j in s.locks ==> s.locks[j] != p
    requires !HeldByAnother(s, p, i)
    ensures LocksAreOwned(Become(s, p, Granted(i, Flock)).(locks := s.locks[i := p]))
  {
    var t := Become(s, p, Granted(i, Flock)).(locks := s.locks[i := p]);
    forall j | j in t.locks
      ensures OwnsFlock(t, t.locks[j], j)
    {
      if j != i { assert OwnsFlock(s, s.locks[j], j); }
    }
  }

  /** Files and records are no part of it. */
  lemma OwnedElsewhere(s: State, t: State)
    requires LocksAreOwned(s) && t.locks == s.locks && t.phase == s.phase && t.next == s.next
    requires t.file == s.file || t.file.None?
    ensures LocksAreOwned(t)
  {
    forall i | i in t.locks
      ensures OwnsFlock(t, t.locks[i], i)
    {
      assert OwnsFlock(s, s.locks[i], i);
    }
  }

  lemma PhaseBelow(s: State, p: Proc)
    requires LocksAreOwned(s) && p in s.phase
    ensures Below(s.phase[p], s.next) && (s.file.Some? ==> s.file.value < s.next)
  {
  }

  /** The steps of `take` up to the grant. */
  lemma OwnedTake(u: Setup, s: State, step: Step)
    requires WellFormed(u) && LocksAreOwned(s) && Apply(u, s, step).Some?
    requires step.Create? || step.Open? || step.Probe? || step.CheckRecord? || step.RemoveReaped? || step.CreateAgain?
    ensures LocksAreOwned(Apply(u, s, step).value)
  {
    hide LocksAreOwned;
    var p := step.p;
    PhaseBelow(s, p);
    NotGrantedOwnsNone(s, p);
    var at := s.phase[p];
    match step
    case Create(_, reaped) => OwnedCreate(s, p, Existing(reaped));
    case Open(_) =>
      if s.file.Some? { OwnedBecome(s, p, Opened(s.file.value, at.reaped)); } else { OwnedRelease(s, p, Idle); }
    case Probe(_) =>
      if !u.supports[p] {
        OwnedBecome(s, p, Granted(at.inode, ExclFile));
      } else if HeldByAnother(s, p, at.inode) {
        OwnedRelease(s, p, Idle);
      } else {
        OwnedGrant(s, p, at.inode);
      }
    case CheckRecord(_) =>
      if NamesReaped(u, s, at.inode, at.reaped) {
        OwnedBecome(s, p, Removing(at.inode, at.reaped.value));
      } else {
        OwnedRelease(s, p, Idle);
      }
    case RemoveReaped(_) =>
      OwnedBecome(s, p, Retrying);
      OwnedElsewhere(Become(s, p, Retrying), Become(s, p, Retrying).(file := None));
    case CreateAgain(_) => OwnedCreate(s, p, Idle);
  }

  lemma OwnedStep(u: Setup, s: State, step: Step)
    requires WellFormed(u) && LocksAreOwned(s) && Apply(u, s, step).Some?
    ensures LocksAreOwned(Apply(u, s, step).value)
  {
    if step.Create? || step.Open? || step.Probe? || step.CheckRecord? || step.RemoveReaped? || step.CreateAgain? {
      OwnedTake(u, s, step);
    } else {
      OwnedHold(u, s, step);
    }
  }

  /** The steps from the grant on. */
  lemma OwnedHold(u: Setup, s: State, step: Step)
    requires WellFormed(u) && LocksAreOwned(s) && Apply(u, s, step).Some?
    requires step.WriteRecord? || step.Unlink? || step.Close? || step.ProbeError? || step.WriteError? || step.Crash?
    ensures LocksAreOwned(Apply(u, s, step).value)
  {
    var p := step.p;
    var at := s.phase[p];
    CarriesItsOwn(s, p);
    hide LocksAreOwned;
    PhaseBelow(s, p);
    match step
    case WriteRecord(_) =>
      OwnedBecome(s, p, Holding(at.inode, at.mode));
      OwnedElsewhere(Become(s, p, Holding(at.inode, at.mode)), Apply(u, s, step).value);
    case Unlink(_) =>
      OwnedBecome(s, p, Unlinked(at.inode));
      OwnedElsewhere(Become(s, p, Unlinked(at.inode)), Become(s, p, Unlinked(at.inode)).(file := None));
    case Close(_) => OwnedRelease(s, p, Idle);
    case ProbeError(_) => OwnedRelease(s, p, Idle);
    case WriteError(_) => OwnedRelease(s, p, Idle);
    case Crash(_) => OwnedRelease(s, p, Dead);
  }

  lemma CarriesItsOwn(s: State, p: Proc)
    requires LocksAreOwned(s) && p in s.phase
    ensures forall i :: i in s.locks && s.locks[i] == p ==> s.phase[p] == Granted(i, Flock) || s.phase[p] == Holding(i, Flock)
  {
    forall i | i in s.locks && s.locks[i] == p
      ensures s.phase[p] == Granted(i, Flock) || s.phase[p] == Holding(i, Flock)
    {
      assert OwnsFlock(s, s.locks[i], i);
    }
  }

  /** Main result: in every reachable state, a process that has given up, closed, or died carries no `flock`. */
  lemma {:induction false} LeaversHoldNothing(u: Setup, steps: seq<Step>)
    requires WellFormed(u) && Run(u, steps).Some?
    ensures LocksAreOwned(Run(u, steps).value)
    ensures forall i :: i in Run(u, steps).value.locks ==> Holds(Run(u, steps).value, Run(u, steps).value.locks[i])
  {
    if |steps| > 0 {
      var front := steps[..|steps| - 1];
      LeaversHoldNothing(u, front);
      OwnedStep(u, Run(u, front).value, steps[|steps| - 1]);
    }
  }

  /** No process but perhaps one that is about to let go holds the lock. */
  ghost predicate NobodyHolds(s: State) { forall p :: p in s.phase ==> !Holds(s, p) }

  /** The way of a process that finds `flock`: create or open, probe, write. */
  lemma TakenWithFlock(u: Setup, steps: seq<Step>, s: State, q: Proc) returns (more: seq<Step>)
    requires WellFormed(u) && Run(u, steps) == Some(s) && LocksAreOwned(s) && NobodyHolds(s)
    requires q in u.procs && q in s.phase && s.phase[q].Idle? && u.supports[q]
    ensures Run(u, more).Some? && steps <= more && q in Run(u, more).value.phase && Run(u, more).value.phase[q].Holding?
  {
    hide Run;
    NoLocks(s);
    var s1 := Apply(u, s, Create(q, None)).value;
    more := steps + [Create(q, None)];
    Extend(u, steps, Create(q, None), s, s1);
    if s.file.Some? {
      var s2 := Apply(u, s1, Open(q)).value;
      Extend(u, more, Open(q), s1, s2);
      more := more + [Open(q)];
      s1 := s2;
    }
    more := ProbedAndWritten(u, more, s1, q);
    assert steps <= more;
  }

  lemma NoLocks(s: State)
    requires LocksAreOwned(s) && NobodyHolds(s)
    ensures s.locks == map[]
  {
    forall i | i in s.locks
      ensures false
    {
      assert OwnsFlock(s, s.locks[i], i);
      assert Holds(s, s.locks[i]);
    }
  }

  lemma ProbedAndWritten(u: Setup, steps: seq<Step>, s: State, q: Proc) returns (more: seq<Step>)
    requires WellFormed(u) && Run(u, steps) == Some(s) && s.locks == map[] && q in u.procs && q in s.phase
    requires s.phase[q].Fresh? || (s.phase[q].Opened? && u.supports[q])
    ensures Run(u, more).Some? && steps <= more && q in Run(u, more).value.phase && Run(u, more).value.phase[q].Holding?
  {
    hide Run;
    var s1 := Apply(u, s, Probe(q)).value;
    var s2 := Apply(u, s1, WriteRecord(q)).value;
    Extend(u, steps, Probe(q), s, s1);
    Extend(u, steps + [Probe(q)], WriteRecord(q), s1, s2);
    more := steps + [Probe(q)] + [WriteRecord(q)];
  }

  /** The way of a process that does not, where there is no file: create, probe, write. */
  lemma TakenByCreating(u: Setup, steps: seq<Step>, s: State, q: Proc) returns (more: seq<Step>)
    requires WellFormed(u) && Run(u, steps) == Some(s) && LocksAreOwned(s) && NobodyHolds(s)
    requires q in u.procs && q in s.phase && s.phase[q].Idle? && s.file.None?
    ensures Run(u, more).Some? && steps <= more && q in Run(u, more).value.phase && Run(u, more).value.phase[q].Holding?
  {
    hide Run;
    NoLocks(s);
    var s1 := Apply(u, s, Create(q, None)).value;
    Extend(u, steps, Create(q, None), s, s1);
    more := ProbedAndWritten(u, steps + [Create(q, None)], s1, q);
    assert steps <= more;
  }

  /**
   Main result: whenever the only holder is holding, it can let go and any waiting process that finds the
   same capability can take the lock next.
   */
  lemma LockIsHandedOn(u: Setup, steps: seq<Step>, p: Proc, q: Proc) returns (more: seq<Step>)
    requires WellFormed(u) && Run(u, steps).Some? && p in u.procs && q in u.procs && p != q
    requires
      var s := Run(u, steps).value;
      && p in s.phase && s.phase[p].Holding? && q in s.phase && s.phase[q].Idle?
      && (forall r :: r in s.phase && Holds(s, r) ==> r == p)
      && (s.phase[p].mode.Flock? <==> u.supports[q])
    ensures Run(u, more).Some? && steps <= more && q in Run(u, more).value.phase && Run(u, more).value.phase[q].Holding?
  {
    hide Run;
    var s := Run(u, steps).value;
    var let := LetGo(u, steps, s, p, q);
    var t := Run(u, let).value;
    LeaversHoldNothing(u, let);
    if s.phase[p].mode.Flock? {
      more := TakenWithFlock(u, let, t, q);
    } else {
      more := TakenByCreating(u, let, t, q);
    }
  }

  lemma LetGo(u: Setup, steps: seq<Step>, s: State, p: Proc, q: Proc) returns (more: seq<Step>)
    requires WellFormed(u) && Run(u, steps) == Some(s) && p in u.procs && p != q
    requires p in s.phase && s.phase[p].Holding? && q in s.phase && s.phase[q].Idle?
    requires forall r :: r in s.phase && Holds(s, r) ==> r == p
    ensures Run(u, more).Some? && steps <= more
    ensures
      var t := Run(u, more).value;
      NobodyHolds(t) && q in t.phase && t.phase[q].Idle? && (s.phase[p].mode.ExclFile? ==> t.file.None?)
  {
    hide Run;
    more := steps;
    var t := s;
    if s.phase[p].mode.ExclFile? {
      t := Apply(u, s, Unlink(p)).value;
      Extend(u, steps, Unlink(p), s, t);
      more := steps + [Unlink(p)];
    }
    var closed := Apply(u, t, Close(p)).value;
    Extend(u, more, Close(p), t, closed);
    more := more + [Close(p)];
  }
}
