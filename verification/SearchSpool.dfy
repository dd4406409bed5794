/** The durable search spool as a step system. */
module SearchSpool {
  // Job files live in three directories and move between them by atomic rename.
  // Any number of workers claim, read, index and finish jobs; any of them may
  // crash, and any of them may hand a "stale" claimed file back at any moment.
  // Renames keep a file's modification time, so staleness is measured from the
  // moment a job was written, not from the moment it was claimed.

  import opened Options

  type Name = string
  type Worker = nat

  datatype Job =
    | Topic(id: int, withComments: bool)
    | Comment(id: int)
    | Comments(ids: seq<int>)
    | Month(year: int, month: int)

  datatype Payload = Readable(job: Job) | Garbage

  datatype File = File(payload: Payload, mtime: int)

  datatype Dirs = Dirs(
    pending: map<Name, File>,
    processing: map<Name, File>,
    failed: map<Name, File>)

  /** Ten minutes in nanoseconds, the unit of `now` and `mtime`. */
  const STALE_AFTER: int := 10 * 60 * 1_000_000_000

  /** Where a worker stands inside one iteration of the drain loop. */
  datatype Phase =
    | Idle
    | Claimed(name: Name)
    | Unreadable(name: Name)
    | Indexing(name: Name, job: Job)
    | Done(name: Name, job: Job, ok: bool)

  /** What the history records: indexing outcomes and removals, by worker. */
  datatype Event =
    | Indexed(w: Worker, name: Name, job: Job, ok: bool)
    | Removed(w: Worker, name: Name)

  datatype State = State(
    now: int,
    dirs: Dirs,
    workers: map<Worker, Phase>,
    enqueued: map<Name, File>,
    log: seq<Event>)

  datatype Step =
    | Enqueue(name: Name, file: File)
    | Tick(now: int)
    | Reclaim(name: Name)
    | Claim(w: Worker, name: Name)
    | ReadJob(w: Worker)
    | ReadFails(w: Worker, ioError: bool)
    | Quarantine(w: Worker)
    | IndexReturns(w: Worker, ok: bool)
    | FinishOk(w: Worker)
    | FinishErr(w: Worker)
    | Crash(w: Worker)

  function PhaseOf(s: State, w: Worker): Phase {
    if w in s.workers then s.workers[w] else Idle
  }

  predicate Stale(now: int, file: File) {
    file.mtime < now - STALE_AFTER
  }

  /**
   When each step can happen. A rename or remove whose source is gone fails;
   the worker then gives up this file, which is the transition of `Crash`.
   `ReadFails` covers a vanished file, a payload that does not parse and, with
   `ioError`, any other read error.
   */
  predicate Enabled(s: State, step: Step) {
    match step
    case Enqueue(name, file) => name !in s.enqueued && file.mtime <= s.now
    case Tick(now) => s.now <= now
    case Reclaim(name) => name in s.dirs.processing && Stale(s.now, s.dirs.processing[name])
    case Claim(w, name) => PhaseOf(s, w).Idle? && name in s.dirs.pending
    case ReadJob(w) =>
      && PhaseOf(s, w).Claimed?
      && PhaseOf(s, w).name in s.dirs.processing
      && s.dirs.processing[PhaseOf(s, w).name].payload.Readable?
    case ReadFails(w, ioError) =>
      && PhaseOf(s, w).Claimed?
      && (|| ioError
          || PhaseOf(s, w).name !in s.dirs.processing
          || s.dirs.processing[PhaseOf(s, w).name].payload.Garbage?)
    case Quarantine(w) => PhaseOf(s, w).Unreadable? && PhaseOf(s, w).name in s.dirs.processing
    case IndexReturns(w, _) => PhaseOf(s, w).Indexing?
    case FinishOk(w) => PhaseOf(s, w).Done? && PhaseOf(s, w).ok && PhaseOf(s, w).name in s.dirs.processing
    case FinishErr(w) => PhaseOf(s, w).Done? && !PhaseOf(s, w).ok && PhaseOf(s, w).name in s.dirs.processing
    case Crash(w) => true
  }

  function ClaimFile(d: Dirs, n: Name): Dirs
    requires n in d.pending
  {
    d.(pending := d.pending - {n}, processing := d.processing[n := d.pending[n]])
  }

  function ReturnFile(d: Dirs, n: Name): Dirs
    requires n in d.processing
  {
    d.(processing := d.processing - {n}, pending := d.pending[n := d.processing[n]])
  }

  function QuarantineFile(d: Dirs, n: Name): Dirs
    requires n in d.processing
  {
    d.(processing := d.processing - {n}, failed := d.failed[n := d.processing[n]])
  }

  function RemoveFile(d: Dirs, n: Name): Dirs {
    d.(processing := d.processing - {n})
  }

  function Apply(s: State, step: Step): State
    requires Enabled(s, step)
  {
    match step
    case Enqueue(name, file) =>
      s.(dirs := s.dirs.(pending := s.dirs.pending[name := file]), enqueued := s.enqueued[name := file])
    case Tick(now) => s.(now := now)
    case Reclaim(name) => s.(dirs := ReturnFile(s.dirs, name))
    case Claim(w, name) => s.(dirs := ClaimFile(s.dirs, name), workers := s.workers[w := Claimed(name)])
    case ReadJob(w) =>
      var n := PhaseOf(s, w).name;
      s.(workers := s.workers[w := Indexing(n, s.dirs.processing[n].payload.job)])
    case ReadFails(w, _) => s.(workers := s.workers[w := Unreadable(PhaseOf(s, w).name)])
    case Quarantine(w) =>
      s.(dirs := QuarantineFile(s.dirs, PhaseOf(s, w).name), workers := s.workers[w := Idle])
    case IndexReturns(w, ok) =>
      var p := PhaseOf(s, w);
      s.(workers := s.workers[w := Done(p.name, p.job, ok)], log := s.log + [Indexed(w, p.name, p.job, ok)])
    case FinishOk(w) =>
      var n := PhaseOf(s, w).name;
      s.(dirs := RemoveFile(s.dirs, n), workers := s.workers[w := Idle], log := s.log + [Removed(w, n)])
    case FinishErr(w) =>
      s.(dirs := ReturnFile(s.dirs, PhaseOf(s, w).name), workers := s.workers[w := Idle])
    case Crash(w) => s.(workers := s.workers[w := Idle])
  }

  predicate Initial(s: State) {
    s.dirs == Dirs(map[], map[], map[]) && s.workers == map[] && s.enqueued == map[] && s.log == []
  }

  /** A run is a list of steps, each enabled where the previous ones lead. */
  predicate ValidRun(s: State, steps: seq<Step>)
    decreases |steps|
  {
    steps == [] || (Enabled(s, steps[0]) && ValidRun(Apply(s, steps[0]), steps[1..]))
  }

  function Exec(s: State, steps: seq<Step>): State
    requires ValidRun(s, steps)
    decreases |steps|
  {
    if steps == [] then s else Exec(Apply(s, steps[0]), steps[1..])
  }

  // ---------------------------------------------------------------- accounting

  function Has<K, V>(m: map<K, V>, k: K): nat {
    if k in m then 1 else 0
  }

  function RemovedCount(log: seq<Event>, n: Name): nat {
    if log == [] then 0
    else RemovedCount(log[..|log| - 1], n)
         + (if log[|log| - 1].Removed? && log[|log| - 1].name == n then 1 else 0)
  }

  function Copies(d: Dirs, n: Name): nat {
    Has(d.pending, n) + Has(d.processing, n) + Has(d.failed, n)
  }

  /** Every enqueued file is in exactly one directory or was removed exactly once; no other file exists. */
  ghost predicate Accounted(s: State) {
    forall n: Name :: Copies(s.dirs, n) + RemovedCount(s.log, n) == Has(s.enqueued, n)
  }

  /** Files are moved, never rewritten: payload and modification time are those of the enqueued file. */
  ghost predicate Unaltered(s: State) {
    && (forall n :: n in s.dirs.pending ==> n in s.enqueued && s.dirs.pending[n] == s.enqueued[n])
    && (forall n :: n in s.dirs.processing ==> n in s.enqueued && s.dirs.processing[n] == s.enqueued[n])
    && (forall n :: n in s.dirs.failed ==> n in s.enqueued && s.dirs.failed[n] == s.enqueued[n])
  }

  /** What a worker believes about its job is what was enqueued under that name. */
  ghost predicate PhasesSound(s: State) {
    forall w :: w in s.workers ==> PhaseSound(s, w, s.workers[w])
  }

  ghost predicate PhaseSound(s: State, w: Worker, phase: Phase) {
    && (phase.Indexing? || phase.Done? ==>
          phase.name in s.enqueued && s.enqueued[phase.name].payload == Readable(phase.job))
    && (phase.Done? ==> LastOf(s.log, w) == Some(Indexed(w, phase.name, phase.job, phase.ok)))
  }

  /** The most recent event of worker `w`. */
  function LastOf(log: seq<Event>, w: Worker): Option<Event> {
    if log == [] then None
    else if log[|log| - 1].w == w then Some(log[|log| - 1])
    else LastOf(log[..|log| - 1], w)
  }

  /**
   Every removal was made by a worker whose own previous recorded act was to
   index exactly that enqueued job successfully.
   */
  ghost predicate RemovalsJustified(s: State) {
    forall k :: 0 <= k < |s.log| && s.log[k].Removed? ==>
      var n := s.log[k].name;
      && n in s.enqueued
      && s.enqueued[n].payload.Readable?
      && LastOf(s.log[..k], s.log[k].w) == Some(Indexed(s.log[k].w, n, s.enqueued[n].payload.job, true))
  }

  ghost predicate Inv(s: State) {
    Accounted(s) && Unaltered(s) && PhasesSound(s) && RemovalsJustified(s)
  }

  lemma InitialInv(s: State)
    requires Initial(s)
    ensures Inv(s)
  {
  }

  lemma RemovedCountExtends(log: seq<Event>, e: Event, n: Name)
    ensures RemovedCount(log + [e], n) == RemovedCount(log, n) + (if e.Removed? && e.name == n then 1 else 0)
  {
    assert (log + [e])[..|log|] == log;
  }

  lemma LastOfExtends(log: seq<Event>, e: Event, w: Worker)
    ensures LastOf(log + [e], w) == if e.w == w then Some(e) else LastOf(log, w)
  {
    assert (log + [e])[..|log|] == log;
  }

  lemma AccountedAt(s: State, step: Step, n: Name)
    requires Enabled(s, step)
    requires step.Enqueue? ==> Copies(s.dirs, step.name) == 0 && RemovedCount(s.log, step.name) == 0
    requires Copies(s.dirs, n) + RemovedCount(s.log, n) == Has(s.enqueued, n)
    ensures
      var s' := Apply(s, step);
      Copies(s'.dirs, n) + RemovedCount(s'.log, n) == Has(s'.enqueued, n)
  {
    match step
    case Reclaim(name) => CopiesKept(s.dirs, name, n);
    case Claim(_, name) => CopiesKept(s.dirs, name, n);
    case Quarantine(w) => CopiesKept(s.dirs, PhaseOf(s, w).name, n);
    case FinishErr(w) => CopiesKept(s.dirs, PhaseOf(s, w).name, n);
    case IndexReturns(w, ok) =>
      RemovedCountExtends(s.log, Indexed(w, PhaseOf(s, w).name, PhaseOf(s, w).job, ok), n);
    case FinishOk(w) =>
      CopiesKept(s.dirs, PhaseOf(s, w).name, n);
      RemovedCountExtends(s.log, Removed(w, PhaseOf(s, w).name), n);
    case _ =>
  }

  /** Moving a file that stands in one place keeps the number of its copies; removing takes one away. */
  lemma CopiesKept(d: Dirs, moved: Name, n: Name)
    requires moved == n ==> Copies(d, n) <= 1
    ensures moved in d.pending ==> Copies(ClaimFile(d, moved), n) == Copies(d, n)
    ensures moved in d.processing ==> Copies(ReturnFile(d, moved), n) == Copies(d, n)
    ensures moved in d.processing ==> Copies(QuarantineFile(d, moved), n) == Copies(d, n)
    ensures moved in d.processing ==>
              Copies(RemoveFile(d, moved), n) == Copies(d, n) - (if moved == n then 1 else 0)
  {
  }

  lemma AccountedStep(s: State, step: Step)
    requires Accounted(s) && Enabled(s, step)
    ensures Accounted(Apply(s, step))
  {
    if step.Enqueue? {
      assert Copies(s.dirs, step.name) + RemovedCount(s.log, step.name) == Has(s.enqueued, step.name);
    }
    var s' := Apply(s, step);
    forall n: Name
      ensures Copies(s'.dirs, n) + RemovedCount(s'.log, n) == Has(s'.enqueued, n)
    {
      assert Copies(s.dirs, n) + RemovedCount(s.log, n) == Has(s.enqueued, n);
      AccountedAt(s, step, n);
    }
  }

  lemma UnalteredStep(s: State, step: Step)
    requires Accounted(s) && Unaltered(s) && Enabled(s, step)
    ensures Unaltered(Apply(s, step))
  {
    if step.Enqueue? {
      assert Copies(s.dirs, step.name) + RemovedCount(s.log, step.name) == Has(s.enqueued, step.name);
    }
  }

  lemma PhasesSoundStep(s: State, step: Step)
    requires Inv(s) && Enabled(s, step)
    ensures PhasesSound(Apply(s, step))
  {
    var s' := Apply(s, step);
    if step.IndexReturns? || step.FinishOk? {
      var e := s'.log[|s.log|];
      assert s'.log == s.log + [e];
      forall w: Worker
        ensures LastOf(s'.log, w) == if e.w == w then Some(e) else LastOf(s.log, w)
      {
        LastOfExtends(s.log, e, w);
      }
    }
  }

  lemma RemovalsJustifiedStep(s: State, step: Step)
    requires Inv(s) && Enabled(s, step)
    ensures RemovalsJustified(Apply(s, step))
  {
    var s' := Apply(s, step);
    forall k | 0 <= k < |s'.log| && s'.log[k].Removed?
      ensures
        var n := s'.log[k].name;
        && n in s'.enqueued
        && s'.enqueued[n].payload.Readable?
        && LastOf(s'.log[..k], s'.log[k].w) == Some(Indexed(s'.log[k].w, n, s'.enqueued[n].payload.job, true))
    {
      if k < |s.log| {
        assert s'.log[..k] == s.log[..k] && s'.log[k] == s.log[k];
      } else {
        assert s'.log[..k] == s.log;
      }
    }
  }

  lemma InvStep(s: State, step: Step)
    requires Inv(s) && Enabled(s, step)
    ensures Inv(Apply(s, step))
  {
    AccountedStep(s, step);
    UnalteredStep(s, step);
    PhasesSoundStep(s, step);
    RemovalsJustifiedStep(s, step);
  }

  lemma {:induction false} InvRun(s: State, steps: seq<Step>)
    requires Inv(s) && ValidRun(s, steps)
    ensures Inv(Exec(s, steps))
    decreases |steps|
  {
    if steps != [] {
      InvStep(s, steps[0]);
      InvRun(Apply(s, steps[0]), steps[1..]);
    }
  }

  /**
   For every interleaving of workers, crashes and reclaims: each enqueued job
   is in exactly one directory or was removed exactly once, unaltered, and every
   removal follows that same worker's own successful indexing of that job.
   */
  lemma NoJobIsLostOrDuplicated(s: State, steps: seq<Step>)
    requires Initial(s) && ValidRun(s, steps)
    ensures Accounted(Exec(s, steps)) && Unaltered(Exec(s, steps)) && RemovalsJustified(Exec(s, steps))
  {
    InitialInv(s);
    InvRun(s, steps);
  }

  // ---------------------------------------------------------------- exclusivity

  predicate Holds(s: State, w: Worker, n: Name) {
    !PhaseOf(s, w).Idle? && PhaseOf(s, w).name == n
  }

  ghost predicate Held(s: State, n: Name) {
    exists w :: Holds(s, w, n)
  }

  /** A claim excludes others: held files are in `processing`, and no two workers hold one file. */
  ghost predicate Exclusive(s: State) {
    && (forall w, n :: Holds(s, w, n) ==> n in s.dirs.processing)
    && (forall w, w', n :: Holds(s, w, n) && Holds(s, w', n) ==> w == w')
  }

  /**
   The documented promise that a claim keeps replicas off a file survives a
   step exactly when that step is not the reclaim of a file some worker holds.
   */
  lemma ExclusiveStepIff(s: State, step: Step)
    requires Inv(s) && Exclusive(s) && Enabled(s, step)
    ensures Exclusive(Apply(s, step)) <==> !(step.Reclaim? && Held(s, step.name))
  {
    var s' := Apply(s, step);
    if step.Reclaim? && Held(s, step.name) {
      var w :| Holds(s, w, step.name);
      assert Holds(s', w, step.name) && step.name !in s'.dirs.processing;
    } else {
      if step.Quarantine? || step.FinishOk? || step.FinishErr? {
        assert Holds(s, step.w, PhaseOf(s, step.w).name);
      }
      if step.Claim? {
        assert Copies(s.dirs, step.name) + RemovedCount(s.log, step.name) == Has(s.enqueued, step.name);
        assert !Held(s, step.name);
      }
      forall w, n | Holds(s', w, n)
        ensures n in s'.dirs.processing
        ensures forall w' :: Holds(s', w', n) ==> w == w'
      {
        if step.Claim? && w == step.w {
          forall w' | Holds(s', w', n) ensures w == w' {
            if w' != w {
              assert Holds(s, w', n);
            }
          }
        } else {
          assert Holds(s, w, n);
          forall w' | Holds(s', w', n) ensures w == w' {
            if step.Claim? && w' == step.w {
              assert false;
            } else {
              assert Holds(s, w', n);
            }
          }
        }
      }
    }
  }

  /**
   Claiming does not refresh the modification time: right after a claim the
   file can be taken away again exactly when it was already older than ten
   minutes, and then a second worker can come to hold it too.
   */
  lemma FreshClaimCanBeTakenBack(s: State, w: Worker, w': Worker, n: Name)
    requires Enabled(s, Claim(w, n)) && w != w' && PhaseOf(s, w').Idle?
    ensures Enabled(Apply(s, Claim(w, n)), Reclaim(n)) <==> s.dirs.pending[n].mtime < s.now - 600_000_000_000
    ensures s.dirs.pending[n].mtime < s.now - 600_000_000_000 ==>
              && ValidRun(s, [Claim(w, n), Reclaim(n), Claim(w', n)])
              && Holds(Exec(s, [Claim(w, n), Reclaim(n), Claim(w', n)]), w, n)
              && Holds(Exec(s, [Claim(w, n), Reclaim(n), Claim(w', n)]), w', n)
  {
    if Stale(s.now, s.dirs.pending[n]) {
      var s1 := Apply(s, Claim(w, n));
      var s2 := Apply(s1, Reclaim(n));
      var s3 := Apply(s2, Claim(w', n));
      var steps := [Claim(w, n), Reclaim(n), Claim(w', n)];
      assert steps[1..] == [Reclaim(n), Claim(w', n)];
      assert steps[1..][1..] == [Claim(w', n)];
      assert ValidRun(s3, steps[1..][1..][1..]) && Exec(s3, steps[1..][1..][1..]) == s3;
      assert ValidRun(s2, steps[1..][1..]) && Exec(s2, steps[1..][1..]) == s3;
      assert ValidRun(s1, steps[1..]) && Exec(s1, steps[1..]) == s3;
    }
  }

  // ---------------------------------------------------------------- quarantine

  /** No step of the run reports a read error other than "missing" or "does not parse". */
  predicate NoReadErrors(steps: seq<Step>) {
    forall k :: 0 <= k < |steps| && steps[k].ReadFails? ==> !steps[k].ioError
  }

  /** Claims stay exclusive: the run never reclaims a file while some worker holds it. */
  ghost predicate NeverReclaimsHeld(s: State, steps: seq<Step>)
    requires ValidRun(s, steps)
    decreases |steps|
  {
    steps == [] ||
    (!(steps[0].Reclaim? && Held(s, steps[0].name)) && NeverReclaimsHeld(Apply(s, steps[0]), steps[1..]))
  }

  /** `failed` holds only payloads that do not parse, and only such files are on their way there. */
  ghost predicate OnlyGarbageFails(s: State) {
    && (forall n :: n in s.dirs.failed ==> s.dirs.failed[n].payload.Garbage?)
    && (forall w :: w in s.workers && s.workers[w].Unreadable? ==>
          s.workers[w].name in s.enqueued && s.enqueued[s.workers[w].name].payload.Garbage?)
  }

  /** A failing read of a job that parses: the claimed path was empty, or the read itself broke. */
  predicate BadRead(s: State, step: Step)
    requires Enabled(s, step)
  {
    step.ReadFails?
    && !(PhaseOf(s, step.w).name in s.enqueued && s.enqueued[PhaseOf(s, step.w).name].payload.Garbage?)
  }

  /** A step lets a job that parses get on the way to `failed` exactly when it is such a read. */
  lemma GarbageStepIff(s: State, step: Step)
    requires Inv(s) && OnlyGarbageFails(s) && Enabled(s, step)
    ensures OnlyGarbageFails(Apply(s, step)) <==> !BadRead(s, step)
  {
    if step.ReadFails? {
      assert Apply(s, step).workers[step.w].Unreadable?;
    }
  }

  predicate NoBadReads(s: State, steps: seq<Step>)
    requires ValidRun(s, steps)
    decreases |steps|
  {
    steps == [] || (!BadRead(s, steps[0]) && NoBadReads(Apply(s, steps[0]), steps[1..]))
  }

  /** Only garbage is failed or on its way there, now and after every step of the run. */
  ghost predicate OnlyGarbageEver(s: State, steps: seq<Step>)
    requires ValidRun(s, steps)
    decreases |steps|
  {
    OnlyGarbageFails(s) && (steps == [] || OnlyGarbageEver(Apply(s, steps[0]), steps[1..]))
  }

  lemma {:induction false} GarbageRunIff(s: State, steps: seq<Step>)
    requires Inv(s) && OnlyGarbageFails(s) && ValidRun(s, steps)
    ensures OnlyGarbageEver(s, steps) <==> NoBadReads(s, steps)
    ensures NoBadReads(s, steps) ==> OnlyGarbageFails(Exec(s, steps))
    decreases |steps|
  {
    if steps != [] {
      InvStep(s, steps[0]);
      GarbageStepIff(s, steps[0]);
      if !BadRead(s, steps[0]) {
        GarbageRunIff(Apply(s, steps[0]), steps[1..]);
      }
    }
  }

  /**
   From the start, jobs that parse stay out of `failed` and off the way there,
   after every step of a run, exactly when no read in it fails for one of them.
   */
  lemma ReadableJobsAreNotQuarantinedIff(s: State, steps: seq<Step>)
    requires Initial(s) && ValidRun(s, steps)
    ensures OnlyGarbageEver(s, steps) <==> NoBadReads(s, steps)
    ensures NoBadReads(s, steps) ==>
              forall n :: n in Exec(s, steps).dirs.failed ==> Exec(s, steps).dirs.failed[n].payload.Garbage?
  {
    InitialInv(s);
    GarbageRunIff(s, steps);
  }

  /** Exclusive claims and reads without other errors rule such reads out. */
  lemma {:induction false} ExclusiveReadsAreGood(s: State, steps: seq<Step>)
    requires Inv(s) && Exclusive(s) && ValidRun(s, steps) && NoReadErrors(steps) && NeverReclaimsHeld(s, steps)
    ensures NoBadReads(s, steps)
    decreases |steps|
  {
    if steps != [] {
      InvStep(s, steps[0]);
      ExclusiveStepIff(s, steps[0]);
      if steps[0].ReadFails? {
        assert Holds(s, steps[0].w, PhaseOf(s, steps[0].w).name);
      }
      ExclusiveReadsAreGood(Apply(s, steps[0]), steps[1..]);
    }
  }

  /** While no held file is reclaimed and reads do not fail for other reasons, a job that parses is never quarantined. */
  lemma ReadableJobsAreNotQuarantined(s: State, steps: seq<Step>)
    requires Initial(s) && ValidRun(s, steps) && NoReadErrors(steps) && NeverReclaimsHeld(s, steps)
    ensures forall n :: n in Exec(s, steps).dirs.failed ==> Exec(s, steps).dirs.failed[n].payload.Garbage?
  {
    InitialInv(s);
    ExclusiveReadsAreGood(s, steps);
    ReadableJobsAreNotQuarantinedIff(s, steps);
  }

  /**
   Without that condition a good job can end in `failed`: a reclaim empties the
   claimed path before the first worker reads it, and a second claim refills it
   before the first worker's quarantine rename.
   */
  lemma ReclaimCanQuarantineAGoodJob(s: State, w: Worker, w': Worker, n: Name)
    requires Enabled(s, Claim(w, n)) && w != w' && PhaseOf(s, w').Idle?
    requires s.dirs.pending[n].payload.Readable? && Stale(s.now, s.dirs.pending[n])
    ensures
      var steps := [Claim(w, n), Reclaim(n), ReadFails(w, false), Claim(w', n), Quarantine(w)];
      && ValidRun(s, steps)
      && n in Exec(s, steps).dirs.failed
      && Exec(s, steps).dirs.failed[n].payload.Readable?
  {
    var steps := [Claim(w, n), Reclaim(n), ReadFails(w, false), Claim(w', n), Quarantine(w)];
    var s1 := Apply(s, steps[0]);
    var s2 := Apply(s1, steps[1]);
    var s3 := Apply(s2, steps[2]);
    var s4 := Apply(s3, steps[3]);
    var s5 := Apply(s4, steps[4]);
    RunCons(s4, steps[4], [], s5);
    RunCons(s3, steps[3], [steps[4]], s5);
    RunCons(s2, steps[2], [steps[3], steps[4]], s5);
    RunCons(s1, steps[1], [steps[2], steps[3], steps[4]], s5);
    RunCons(s, steps[0], [steps[1], steps[2], steps[3], steps[4]], s5);
    assert [steps[0]] + [steps[1], steps[2], steps[3], steps[4]] == steps;
  }

  /** Putting one enabled step in front of a run. */
  lemma RunCons(s: State, step: Step, rest: seq<Step>, end: State)
    requires Enabled(s, step) && ValidRun(Apply(s, step), rest) && Exec(Apply(s, step), rest) == end
    ensures ValidRun(s, [step] + rest) && Exec(s, [step] + rest) == end
  {
    assert ([step] + rest)[1..] == rest;
  }

  lemma {:induction false} RunAppend(s: State, steps: seq<Step>, more: seq<Step>)
    requires ValidRun(s, steps) && ValidRun(Exec(s, steps), more)
    ensures ValidRun(s, steps + more) && Exec(s, steps + more) == Exec(Exec(s, steps), more)
    decreases |steps|
  {
    if steps == [] {
      assert steps + more == more;
    } else {
      RunAppend(Apply(s, steps[0]), steps[1..], more);
      assert (steps + more)[1..] == steps[1..] + more;
    }
  }

  // ---------------------------------------------------------------- no job is stuck

  /** One worker takes a pending job through to removal. */
  function Completion(w: Worker, n: Name): seq<Step> {
    [Crash(w), Claim(w, n), ReadJob(w), IndexReturns(w, true), FinishOk(w)]
  }

  lemma CompletionRuns(s: State, w: Worker, n: Name)
    requires Inv(s) && n in s.dirs.pending && s.dirs.pending[n].payload.Readable?
    ensures ValidRun(s, Completion(w, n)) && RemovedCount(Exec(s, Completion(w, n)).log, n) == 1
  {
    var s1 := Apply(s, Crash(w));
    var s2 := Apply(s1, Claim(w, n));
    assert Copies(s.dirs, n) + RemovedCount(s.log, n) == Has(s.enqueued, n);
    ClaimedJobCompletes(s2, w, n);
    var rest := [ReadJob(w), IndexReturns(w, true), FinishOk(w)];
    RunCons(s1, Claim(w, n), rest, Exec(s2, rest));
    RunCons(s, Crash(w), [Claim(w, n)] + rest, Exec(s2, rest));
    assert [Crash(w)] + ([Claim(w, n)] + rest) == Completion(w, n);
  }

  lemma ClaimedJobCompletes(s: State, w: Worker, n: Name)
    requires PhaseOf(s, w) == Claimed(n) && n in s.dirs.processing && s.dirs.processing[n].payload.Readable?
    ensures
      var steps := [ReadJob(w), IndexReturns(w, true), FinishOk(w)];
      ValidRun(s, steps) && RemovedCount(Exec(s, steps).log, n) == RemovedCount(s.log, n) + 1
  {
    var s1 := Apply(s, ReadJob(w));
    var s2 := Apply(s1, IndexReturns(w, true));
    var s3 := Apply(s2, FinishOk(w));
    RunCons(s2, FinishOk(w), [], s3);
    RunCons(s1, IndexReturns(w, true), [FinishOk(w)], s3);
    RunCons(s, ReadJob(w), [IndexReturns(w, true), FinishOk(w)], s3);
    assert [ReadJob(w)] + ([IndexReturns(w, true)] + [FinishOk(w)]) == [ReadJob(w), IndexReturns(w, true), FinishOk(w)];
    RemovedCountExtends(s.log, s2.log[|s.log|], n);
    RemovedCountExtends(s2.log, s3.log[|s2.log|], n);
  }

  /** A job left in `processing` becomes stale, is handed back, and completes. */
  lemma StrandedJobCompletes(s: State, n: Name)
    requires Inv(s) && n in s.dirs.processing && s.dirs.processing[n].payload.Readable?
    ensures exists future :: ValidRun(s, future) && RemovedCount(Exec(s, future).log, n) == 1
  {
    var f := s.dirs.processing[n];
    var later := if s.now < f.mtime + STALE_AFTER + 1 then f.mtime + STALE_AFTER + 1 else s.now;
    var s1 := Apply(s, Tick(later));
    var s2 := Apply(s1, Reclaim(n));
    InvStep(s, Tick(later));
    InvStep(s1, Reclaim(n));
    CompletionRuns(s2, 0, n);
    var rest := Completion(0, n);
    RunCons(s1, Reclaim(n), rest, Exec(s2, rest));
    RunCons(s, Tick(later), [Reclaim(n)] + rest, Exec(s2, rest));
  }

  /**
   From every reachable state, whatever crashed before, each readable job that is
   not quarantined can still be brought to removal: nothing is ever stuck in
   `processing`.
   */
  lemma EveryJobCanStillComplete(s0: State, past: seq<Step>, n: Name)
    requires Initial(s0) && ValidRun(s0, past)
    requires n in Exec(s0, past).enqueued && Exec(s0, past).enqueued[n].payload.Readable?
    requires n !in Exec(s0, past).dirs.failed
    ensures exists future ::
              && ValidRun(Exec(s0, past), future)
              && RemovedCount(Exec(Exec(s0, past), future).log, n) == 1
  {
    InitialInv(s0);
    InvRun(s0, past);
    var s := Exec(s0, past);
    assert Copies(s.dirs, n) + RemovedCount(s.log, n) == Has(s.enqueued, n);
    if n in s.dirs.pending {
      CompletionRuns(s, 0, n);
    } else if n in s.dirs.processing {
      StrandedJobCompletes(s, n);
    } else {
      assert ValidRun(s, []) && Exec(s, []) == s;
    }
  }
}
