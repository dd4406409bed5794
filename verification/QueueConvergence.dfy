/**
 The spool and the index together: over an unchanging database, what removing
 jobs from the queue says about the documents.
 */
module QueueConvergence {
  import opened Options
  import opened SearchSpool
  import opened SearchIndex
  import opened ReindexMonths

  /** What stays the same during a run: the text functions, the database and the time zone. */
  datatype World = World(x: Texts, db: Db, zone: Zone)

  // ---------------------------------------------------------------- one job

  /** The documents a queued job is responsible for. */
  function ScopeOf(world: World, job: Job): set<Id> {
    match job
    case Topic(id, withComments) => Scope(world.db, id, withComments)
    case Comment(id) => Listed(world.db, [id])
    case Comments(ids) => Listed(world.db, ids)
    case Month(year, month) => JobScope(world.db, world.zone, YearMonth(year, month))
  }

  /** Success puts right exactly the job's documents; failure puts some of them right and touches nothing else. */
  method IndexJob(index: Index, world: World, job: Job) returns (ok: bool)
    modifies index
    requires world.db.Valid()
    ensures ok ==> index.docs == Settle(old(index.docs), world.x, world.db, ScopeOf(world, job))
    ensures !ok ==> exists done ::
              done <= ScopeOf(world, job) && index.docs == Settle(old(index.docs), world.x, world.db, done)
  {
    match job
    case Topic(id, withComments) =>
      ok := index.IndexTopic(world.x, world.db, id, withComments);
    case Comment(id) =>
      ok := index.IndexComment(world.x, world.db, id);
      assert Listed(world.db, [id]) == if id in world.db.comments then {id} else {};
    case Comments(ids) =>
      ok := index.IndexComments(world.x, world.db, ids);
    case Month(year, month) =>
      ok := ReindexMonth(index, world.x, world.db, world.zone, YearMonth(year, month));
  }

  // ---------------------------------------------------------------- the joint system

  /** `written` is what each worker has put right since it read its present job. */
  datatype Joint = Joint(spool: State, docs: map<Id, Doc>, written: map<Worker, set<Id>>)

  /**
   Besides the spool's own steps: a worker that indexes writes some of its job's
   documents, in any portions; and a request of any enqueued job may still be
   applied at any later moment, whatever became of the worker that sent it.
   */
  datatype Act = Move(step: Step) | Write(w: Worker, ids: set<Id>) | Late(name: Name, ids: set<Id>)

  function Written(j: Joint, w: Worker): set<Id> {
    if w in j.written then j.written[w] else {}
  }

  /** Indexing succeeds only once all of the job's documents are written. */
  predicate Can(world: World, j: Joint, act: Act) {
    match act
    case Move(step) =>
      && Enabled(j.spool, step)
      && (step.IndexReturns? && step.ok ==> ScopeOf(world, PhaseOf(j.spool, step.w).job) <= Written(j, step.w))
    case Write(w, ids) => PhaseOf(j.spool, w).Indexing? && ids <= ScopeOf(world, PhaseOf(j.spool, w).job)
    case Late(name, ids) =>
      && name in j.spool.enqueued && j.spool.enqueued[name].payload.Readable?
      && ids <= ScopeOf(world, j.spool.enqueued[name].payload.job)
  }

  function Do(world: World, j: Joint, act: Act): Joint
    requires Can(world, j, act)
  {
    match act
    case Move(step) =>
      j.(spool := Apply(j.spool, step), written := if step.ReadJob? then j.written[step.w := {}] else j.written)
    case Write(w, ids) =>
      j.(docs := Settle(j.docs, world.x, world.db, ids), written := j.written[w := Written(j, w) + ids])
    case Late(_, ids) => j.(docs := Settle(j.docs, world.x, world.db, ids))
  }

  predicate ValidActs(world: World, j: Joint, acts: seq<Act>)
    decreases |acts|
  {
    acts == [] || (Can(world, j, acts[0]) && ValidActs(world, Do(world, j, acts[0]), acts[1..]))
  }

  function After(world: World, j: Joint, acts: seq<Act>): Joint
    requires ValidActs(world, j, acts)
    decreases |acts|
  {
    if acts == [] then j else After(world, Do(world, j, acts[0]), acts[1..])
  }

  // ---------------------------------------------------------------- what every act keeps

  ghost predicate AgreesOn(world: World, docs: map<Id, Doc>, ids: set<Id>) {
    forall id :: id in ids ==> Agrees(docs, world.x, world.db, id)
  }

  /** Over one database, whatever is right stays right, and what is written is right. */
  lemma SettleKeeps(world: World, docs: map<Id, Doc>, ids: set<Id>, more: set<Id>)
    requires AgreesOn(world, docs, ids)
    ensures AgreesOn(world, Settle(docs, world.x, world.db, more), ids + more)
  {
    forall id | id in ids + more ensures Agrees(Settle(docs, world.x, world.db, more), world.x, world.db, id) {
      SettleLookup(docs, world.x, world.db, more, id);
    }
  }

  /** Each indexing worker's written documents are right. */
  ghost predicate WrittenRight(world: World, j: Joint) {
    forall w :: PhaseOf(j.spool, w).Indexing? ==> AgreesOn(world, j.docs, Written(j, w))
  }

  /** The documents of every job that was ever indexed successfully are right. */
  ghost predicate IndexedRight(world: World, j: Joint) {
    forall e :: e in j.spool.log && e.Indexed? && e.ok ==> AgreesOn(world, j.docs, ScopeOf(world, e.job))
  }

  ghost predicate InSomeScope(world: World, s: State, id: Id) {
    exists n :: n in s.enqueued && s.enqueued[n].payload.Readable? && id in ScopeOf(world, s.enqueued[n].payload.job)
  }

  /** Documents outside every enqueued job's scope are as they were. */
  ghost predicate OthersKept(world: World, j: Joint, before: map<Id, Doc>) {
    forall id: Id :: !InSomeScope(world, j.spool, id) ==> Lookup(j.docs, id) == Lookup(before, id)
  }

  ghost predicate JointInv(world: World, j: Joint, before: map<Id, Doc>) {
    Inv(j.spool) && WrittenRight(world, j) && IndexedRight(world, j) && OthersKept(world, j, before)
  }

  lemma WritingKeeps(world: World, j: Joint, ids: set<Id>, before: map<Id, Doc>, n: Name)
    requires JointInv(world, j, before)
    requires n in j.spool.enqueued && j.spool.enqueued[n].payload.Readable?
    requires ids <= ScopeOf(world, j.spool.enqueued[n].payload.job)
    ensures
      var j' := j.(docs := Settle(j.docs, world.x, world.db, ids));
      JointInv(world, j', before) && AgreesOn(world, j'.docs, ids)
  {
    var j' := j.(docs := Settle(j.docs, world.x, world.db, ids));
    SettleKeeps(world, j.docs, {}, ids);
    assert {} + ids == ids;
    forall w | PhaseOf(j'.spool, w).Indexing? ensures AgreesOn(world, j'.docs, Written(j', w)) {
      SettleKeeps(world, j.docs, Written(j, w), ids);
    }
    forall e | e in j'.spool.log && e.Indexed? && e.ok ensures AgreesOn(world, j'.docs, ScopeOf(world, e.job)) {
      SettleKeeps(world, j.docs, ScopeOf(world, e.job), ids);
    }
    forall id: Id | !InSomeScope(world, j'.spool, id) ensures Lookup(j'.docs, id) == Lookup(before, id) {
      SettleLookup(j.docs, world.x, world.db, ids, id);
      assert !InSomeScope(world, j.spool, id);
    }
  }

  lemma MoveKeeps(world: World, j: Joint, step: Step, before: map<Id, Doc>)
    requires JointInv(world, j, before) && Can(world, j, Move(step))
    ensures JointInv(world, Do(world, j, Move(step)), before)
  {
    var j' := Do(world, j, Move(step));
    InvStep(j.spool, step);
    assert WrittenRight(world, j') by {
      MoveKeepsWritten(world, j, step);
    }
    assert IndexedRight(world, j') by {
      MoveKeepsIndexed(world, j, step);
    }
    forall id: Id | !InSomeScope(world, j'.spool, id) ensures Lookup(j'.docs, id) == Lookup(before, id) {
      ScopesGrow(world, j.spool, step, id);
    }
  }

  lemma ScopesGrow(world: World, s: State, step: Step, id: Id)
    requires Enabled(s, step)
    ensures InSomeScope(world, s, id) ==> InSomeScope(world, Apply(s, step), id)
  {
    if InSomeScope(world, s, id) {
      var n :| n in s.enqueued && s.enqueued[n].payload.Readable? && id in ScopeOf(world, s.enqueued[n].payload.job);
      assert n in Apply(s, step).enqueued && Apply(s, step).enqueued[n] == s.enqueued[n];
    }
  }

  lemma MoveKeepsWritten(world: World, j: Joint, step: Step)
    requires WrittenRight(world, j) && Can(world, j, Move(step))
    ensures WrittenRight(world, Do(world, j, Move(step)))
  {
    var j' := Do(world, j, Move(step));
    forall w | PhaseOf(j'.spool, w).Indexing? ensures AgreesOn(world, j'.docs, Written(j', w)) {
      if !(step.ReadJob? && step.w == w) {
        assert PhaseOf(j.spool, w).Indexing? && Written(j', w) == Written(j, w);
      }
    }
  }

  lemma MoveKeepsIndexed(world: World, j: Joint, step: Step)
    requires WrittenRight(world, j) && IndexedRight(world, j) && Can(world, j, Move(step))
    ensures IndexedRight(world, Do(world, j, Move(step)))
  {
    var j' := Do(world, j, Move(step));
    forall e | e in j'.spool.log && e.Indexed? && e.ok ensures AgreesOn(world, j'.docs, ScopeOf(world, e.job)) {
      if e !in j.spool.log {
        assert step == IndexReturns(e.w, true) && e.job == PhaseOf(j.spool, e.w).job;
        assert AgreesOn(world, j.docs, Written(j, e.w));
      }
    }
  }

  lemma ActKeeps(world: World, j: Joint, act: Act, before: map<Id, Doc>)
    requires JointInv(world, j, before) && Can(world, j, act)
    ensures JointInv(world, Do(world, j, act), before)
  {
    match act
    case Move(step) => MoveKeeps(world, j, step, before);
    case Late(name, ids) => WritingKeeps(world, j, ids, before, name);
    case Write(w, ids) =>
      WritingKeeps(world, j, ids, before, PhaseOf(j.spool, w).name);
      var j1 := j.(docs := Settle(j.docs, world.x, world.db, ids));
      var j2 := Do(world, j, act);
      forall v | PhaseOf(j2.spool, v).Indexing? ensures AgreesOn(world, j2.docs, Written(j2, v)) {
        assert AgreesOn(world, j1.docs, Written(j1, v));
      }
  }

  lemma {:induction false} RunKeeps(world: World, j: Joint, acts: seq<Act>, before: map<Id, Doc>)
    requires JointInv(world, j, before) && ValidActs(world, j, acts)
    ensures JointInv(world, After(world, j, acts), before)
    decreases |acts|
  {
    if acts != [] {
      ActKeeps(world, j, acts[0], before);
      RunKeeps(world, Do(world, j, acts[0]), acts[1..], before);
    }
  }

  // ---------------------------------------------------------------- removed means right

  lemma {:induction false} LastIsLogged(log: seq<Event>, w: Worker)
    ensures LastOf(log, w).Some? ==> LastOf(log, w).value in log
    decreases |log|
  {
    if log != [] {
      LastIsLogged(log[..|log| - 1], w);
    }
  }

  lemma {:induction false} RemovedIsLogged(log: seq<Event>, n: Name) returns (k: nat)
    requires RemovedCount(log, n) > 0
    ensures k < |log| && log[k].Removed? && log[k].name == n
    decreases |log|
  {
    k := |log| - 1;
    if !(log[k].Removed? && log[k].name == n) {
      k := RemovedIsLogged(log[..k], n);
    }
  }

  lemma RemovedIsRight(world: World, j: Joint, before: map<Id, Doc>, n: Name)
    requires JointInv(world, j, before) && RemovedCount(j.spool.log, n) > 0
    ensures n in j.spool.enqueued && j.spool.enqueued[n].payload.Readable?
    ensures AgreesOn(world, j.docs, ScopeOf(world, j.spool.enqueued[n].payload.job))
  {
    var log := j.spool.log;
    var k := RemovedIsLogged(log, n);
    LastIsLogged(log[..k], log[k].w);
    var e := LastOf(log[..k], log[k].w).value;
    assert e in log;
  }

  /**
   Over one database, in every run of any number of workers with crashes, stale
   reclaims, failed attempts and requests applied late: whichever jobs have been
   removed, the index agrees with the database on all their documents, and
   documents of no enqueued job are as they were.
   */
  lemma RemovedJobsAreRight(world: World, j: Joint, acts: seq<Act>, n: Name)
    requires Initial(j.spool) && ValidActs(world, j, acts)
    ensures
      var j' := After(world, j, acts);
      && (RemovedCount(j'.spool.log, n) > 0 ==>
            && n in j'.spool.enqueued && j'.spool.enqueued[n].payload.Readable?
            && AgreesOn(world, j'.docs, ScopeOf(world, j'.spool.enqueued[n].payload.job)))
      && OthersKept(world, j', j.docs)
  {
    InitialInv(j.spool);
    RunKeeps(world, j, acts, j.docs);
    var j' := After(world, j, acts);
    if RemovedCount(j'.spool.log, n) > 0 {
      RemovedIsRight(world, j', j.docs, n);
    }
  }

  /**
   Once the three directories are empty, every enqueued job has been indexed: the
   index agrees with the database on all their documents together, and is
   unchanged on the others.
   */
  lemma DrainedQueueIsRight(world: World, j: Joint, acts: seq<Act>, id: Id)
    requires Initial(j.spool) && ValidActs(world, j, acts)
    requires After(world, j, acts).spool.dirs == Dirs(map[], map[], map[])
    ensures
      var j' := After(world, j, acts);
      if InSomeScope(world, j'.spool, id) then Agrees(j'.docs, world.x, world.db, id)
      else Lookup(j'.docs, id) == Lookup(j.docs, id)
  {
    InitialInv(j.spool);
    RunKeeps(world, j, acts, j.docs);
    var j' := After(world, j, acts);
    var s := j'.spool;
    if InSomeScope(world, s, id) {
      var n :| n in s.enqueued && s.enqueued[n].payload.Readable? && id in ScopeOf(world, s.enqueued[n].payload.job);
      assert Copies(s.dirs, n) + RemovedCount(s.log, n) == Has(s.enqueued, n);
      RemovedIsRight(world, j', j.docs, n);
    }
  }
}
