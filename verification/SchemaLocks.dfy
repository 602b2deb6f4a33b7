/**
 The schema-memory lock protocol of grm-mcp/src/tools.rs as a step relation. Two mutexes guard
 the live catalog; a batch releases the state lock while its transaction runs and then
 overwrites the catalog with its staged copy. The base file and the append log live beside it.
 Any number of definitions, batches, checkpoints and readers interleave; appends and
 checkpoints may fail, an append may write only part of its record, and the process may die
 and start again at any point, also part-way through an append.
 */
module SchemaLocks {
  import opened Prelude
  import opened SchemaCatalog

  type Tid = nat

  datatype Job = DefineJob(op: Op) | BatchJob(ops: seq<Op>) | CheckpointJob | ReadJob

  datatype Pc =
    | Start
    | HasSchema                            // schema lock held, state lock wanted
    | InState                              // state lock held (and the schema lock, unless a reader)
    | Staging(snapshot: Catalog)           // batch: state lock released, transaction running
    | Staged(snapshot: Catalog, staged: Catalog)   // batch: committed, state lock wanted again
    | Installing(staged: Catalog)          // batch: about to overwrite the live catalog
    | Appending(rest: seq<Op>)             // both locks held, records still to be appended
    | Clearing                             // checkpoint: base written, log still to be removed
    | Unlocking                            // state lock about to be released
    | LastUnlock                           // schema lock about to be released
    | Done

  datatype Thread = Thread(job: Job, pc: Pc)

  /** A complete line of the log: a record, or one that does not decode. */
  datatype Line = Record(op: Op) | Unreadable

  /**
   `torn` says the log ends in part of a record, without a newline. `acked` are the definitions
   of calls that returned Ok, `missing` those in the live catalog whose append failed and left no
   record. `faulted` says that since the log was last removed an append failed or landed behind
   a torn tail, or that the log was removed with an endpoint missing.
   */
  datatype World = World(
    up: bool,
    schema: Option<Tid>,
    state: Option<Tid>,
    live: Catalog,
    base: Catalog,
    log: seq<Line>,
    torn: bool,
    threads: map<Tid, Thread>,
    acked: set<Op>,
    missing: set<Op>,
    faulted: bool)

  function JobOps(job: Job): seq<Op>
  {
    match job
    case DefineJob(op) => [op]
    case BatchJob(ops) => ops
    case _ => []
  }

  predicate HoldsState(pc: Pc)
  {
    pc.InState? || pc.Installing? || pc.Appending? || pc.Clearing? || pc.Unlocking?
  }

  predicate HoldsSchema(th: Thread)
  {
    !th.job.ReadJob? && !th.pc.Start? && !th.pc.Done?
  }

  /** The records of the lines that can be read. */
  function Ops(log: seq<Line>): (ops: seq<Op>)
  {
    if log == [] then []
    else Ops(log[..|log| - 1]) + (if log[|log| - 1].Record? then [log[|log| - 1].op] else [])
  }

  predicate Readable(log: seq<Line>)
  {
    Unreadable !in log
  }

  /** Reading the files back; one line that does not decode makes the whole log unreadable. */
  function Recovered(w: World): Option<Catalog>
  {
    if Readable(w.log) && Replay(w.base, Ops(w.log)).Success? then Some(Replay(w.base, Ops(w.log)).value) else None
  }

  function Moved(w: World, t: Tid, pc: Pc): World
    requires t in w.threads
  {
    w.(threads := w.threads[t := w.threads[t].(pc := pc)])
  }

  /** Definitions in the live catalog whose records are still to be appended. */
  function Unappended(w: World): seq<Op>
  {
    if w.state.Some? && w.state.value in w.threads && w.threads[w.state.value].pc.Appending?
    then w.threads[w.state.value].pc.rest
    else []
  }

  // ------------------------------------------------------------------- steps

  /** How much of a record an append wrote; only all of it ends the line. */
  datatype Written = Nothing | Part | Whole

  /** The files after an append wrote that much; behind a torn tail the line does not decode. */
  function Logged(w: World, op: Op, written: Written): World
  {
    match written
    case Nothing => w
    case Part => w.(torn := true)
    case Whole =>
      w.(log := w.log + [if w.torn then Unreadable else Record(op)], torn := false, faulted := w.faulted || w.torn)
  }

  /** Taking a lock; enabled only while it is free. */
  ghost predicate LockStep(w: World, w': World, t: Tid)
    requires t in w.threads
  {
    var th := w.threads[t];
    || (th.pc.Start? && !th.job.ReadJob? && w.schema.None? && w' == Moved(w, t, HasSchema).(schema := Some(t)))
    || (th.pc.Start? && th.job.ReadJob? && w.state.None? && w' == Moved(w, t, InState).(state := Some(t)))
    || (th.pc.HasSchema? && w.state.None? && w' == Moved(w, t, InState).(state := Some(t)))
    || (th.pc.Staged? && w.state.None? && w' == Moved(w, t, Installing(th.pc.staged)).(state := Some(t)))
  }

  /** First work inside the locks: define, snapshot for a batch, write the base, or read. */
  ghost predicate EnteredStep(w: World, w': World, t: Tid)
    requires t in w.threads
  {
    match w.threads[t].job
    case DefineJob(op) =>
      // rejected (by the catalog or by validation), or applied to the live catalog
      || w' == Moved(w, t, Unlocking)
      || (Define(w.live, op).Success? && w' == Moved(w, t, Appending([op])).(live := Define(w.live, op).value))
    case BatchJob(_) => w' == Moved(w, t, Staging(w.live)).(state := None)
    case CheckpointJob =>
      || w' == Moved(w, t, Unlocking)
      || w' == Moved(w, t, Clearing).(base := w.live, missing := {})
    case ReadJob => w' == Moved(w, t, Unlocking)
  }

  /** Whether an append leaves its record in the log. */
  predicate Kept(w: World, written: Written)
  {
    written.Whole? && !w.torn
  }

  /** The definitions still without a record after an append. */
  function Rest(w: World, rest: seq<Op>, written: Written): seq<Op>
    requires rest != []
  {
    if Kept(w, written) then rest[1..] else rest
  }

  /** One record of the per-operation append loop: written and synced, or the error that ends the loop. */
  ghost predicate AppendingStep(w: World, w': World, t: Tid, rest: seq<Op>)
    requires t in w.threads
  {
    if rest == [] then w' == Moved(w, t, Unlocking).(acked := w.acked + (set op | op in JobOps(w.threads[t].job)))
    else
      || w' == Moved(Logged(w, rest[0], Whole), t, Appending(rest[1..]))
      || exists written :: FailedAppend(w, w', t, rest, written)
  }

  ghost predicate FailedAppend(w: World, w': World, t: Tid, rest: seq<Op>, written: Written)
    requires t in w.threads && rest != []
  {
    w' == Moved(Logged(w, rest[0], written), t, Unlocking).(missing := w.missing + (set op | op in Rest(w, rest, written)), faulted := true)
  }

  /** Work on the catalog and the files while holding the locks it needs. */
  ghost predicate WorkStep(w: World, w': World, t: Tid)
    requires t in w.threads
  {
    var th := w.threads[t];
    match th.pc
    case InState => EnteredStep(w, w', t)
    case Staging(snapshot) =>
      // not applied (or an error), or committed with its definitions staged
      || w' == Moved(w, t, LastUnlock)
      || (DefineAll(snapshot, JobOps(th.job)).Success?
          && w' == Moved(w, t, Staged(snapshot, DefineAll(snapshot, JobOps(th.job)).value)))
    case Installing(staged) => w' == Moved(w, t, Appending(JobOps(th.job))).(live := staged)
    case Appending(rest) => AppendingStep(w, w', t, rest)
    case Clearing =>
      || w' == Moved(w, t, Unlocking).(log := [], torn := false, faulted := !EndpointsDefined(w.live))
      || w' == Moved(w, t, Unlocking)
    case Unlocking =>
      w' == Moved(w, t, if th.job.ReadJob? then Done else LastUnlock).(state := None)
    case LastUnlock => w' == Moved(w, t, Done).(schema := None)
    case _ => false
  }

  ghost predicate ThreadStep(w: World, w': World, t: Tid)
    requires t in w.threads
  {
    LockStep(w, w', t) || WorkStep(w, w', t)
  }

  ghost predicate Spawn(w: World, w': World, t: Tid, job: Job)
  {
    w.up && t !in w.threads && w' == w.(threads := w.threads[t := Thread(job, Start)])
  }

  function Down(w: World): World
  {
    w.(up := false, schema := None, state := None, threads := map[])
  }

  /** The process dies, perhaps having written some of the record it was appending. */
  ghost predicate Die(w: World, w': World)
  {
    && w.up
    && (w' == Down(w)
        || (Unappended(w) != [] && exists written :: w' == Down(Logged(w, Unappended(w)[0], written))))
  }

  /** It starts again from its files, if they can be read. */
  ghost predicate Restart(w: World, w': World)
  {
    !w.up && Recovered(w).Some? && w' == w.(up := true, live := Recovered(w).value, missing := {})
  }

  ghost predicate Next(w: World, w': World)
  {
    || (exists t :: t in w.threads && ThreadStep(w, w', t))
    || (exists t, job :: Spawn(w, w', t, job))
    || Die(w, w')
    || Restart(w, w')
  }

  /**
   A server that has just started: from the base file it found, with no log beside it, or from
   the empty catalog it checkpointed where there was none. The base need not be whole.
   */
  ghost predicate Init(w: World)
  {
    && w.up && w.schema.None? && w.state.None? && w.threads == map[]
    && w.live == w.base && KindsDisjoint(w.base) && w.log == [] && !w.torn
    && w.acked == {} && w.missing == {} && w.faulted == !EndpointsDefined(w.base)
  }

  ghost predicate IsRun(run: seq<World>)
  {
    run != [] && Init(run[0]) && forall i :: 0 <= i < |run| - 1 ==> Next(run[i], run[i + 1])
  }

  // --------------------------------------------------------------- invariant

  predicate PcFitsJob(th: Thread)
  {
    match th.pc
    case Staging(_) => th.job.BatchJob?
    case Staged(_, _) => th.job.BatchJob?
    case Installing(_) => th.job.BatchJob?
    case Appending(_) => th.job.BatchJob? || th.job.DefineJob?
    case Clearing => th.job.CheckpointJob?
    case HasSchema => !th.job.ReadJob?
    case LastUnlock => !th.job.ReadJob?
    case _ => true
  }

  /** Each lock is held by exactly the thread whose program counter says so. */
  ghost predicate LocksOk(w: World)
  {
    && (forall t :: t in w.threads ==> PcFitsJob(w.threads[t]))
    && (forall t :: t in w.threads ==> (HoldsSchema(w.threads[t]) <==> w.schema == Some(t)))
    && (forall t :: t in w.threads ==> (HoldsState(w.threads[t].pc) <==> w.state == Some(t)))
    && (w.schema.Some? ==> w.schema.value in w.threads)
    && (w.state.Some? ==> w.state.value in w.threads)
    && (!w.up ==> w.threads == map[])
  }

  /** A batch between snapshot and install: the live catalog has not moved under it. */
  ghost predicate BatchOk(w: World, th: Thread)
  {
    match th.pc
    case Staging(snapshot) => w.live == snapshot
    case Staged(snapshot, staged) => w.live == snapshot && DefineAll(snapshot, JobOps(th.job)) == Success(staged)
    case Installing(staged) => DefineAll(w.live, JobOps(th.job)) == Success(staged)
    case _ => true
  }

  /** What reading the readable lines back gives; the files never fail to replay. */
  function Read(w: World): Catalog
  {
    var r := Replay(w.base, Ops(w.log));
    if r.Success? then r.value else EMPTY
  }

  /** The files hold nothing the live catalog does not. */
  ghost predicate FilesOk(w: World)
  {
    KindsDisjoint(w.live) && Includes(w.live, w.base) && AllPresent(w.live, Ops(w.log))
  }

  /** Acknowledged definitions are live, and recoverable as long as the log is readable. */
  ghost predicate AckedOk(w: World)
  {
    forall op :: op in w.acked ==> Present(w.live, op) && (Readable(w.log) ==> Present(Read(w), op))
  }

  /** So are those of the call being logged, but for the records still to do. */
  ghost predicate PendingOk(w: World, todo: seq<Op>, pending: seq<Op>)
  {
    && AllPresent(w.live, todo)
    && forall op :: op in pending ==> Present(w.live, op) && (Readable(w.log) ==> op in todo || Present(Read(w), op))
  }

  /** What is missing from the log, or not yet in it, is not recovered under its name either. */
  ghost predicate FreshOk(w: World, todo: seq<Op>)
  {
    && (forall op :: op in w.missing ==> Present(w.live, op) && !HasName(Read(w), NameOf(op)))
    && (forall op :: op in todo ==> !HasName(Read(w), NameOf(op)))
    && (forall op, m :: op in todo && m in w.missing ==> NameOf(m) != NameOf(op))
    && DistinctNames(todo)
  }

  /** With nothing missing, the files are behind the live catalog by the records being appended. */
  ghost predicate EqualOk(w: World, todo: seq<Op>)
  {
    w.up && Readable(w.log) && w.missing == {} ==> DefineAll(Read(w), todo) == Success(w.live)
  }

  /** Stopping after any number of log records recovers a catalog with all endpoints. */
  ghost predicate PrefixesOk(w: World)
  {
    !w.faulted ==>
      && Readable(w.log) && w.missing == {} && EndpointsDefined(w.live)
      && forall k :: 0 <= k <= |Ops(w.log)| ==> WholeAt(w.base, Ops(w.log), k)
  }

  /** The catalog and its files, with these records of this call still to be appended. */
  ghost predicate Books(w: World, todo: seq<Op>, pending: seq<Op>)
  {
    FilesOk(w) && AckedOk(w) && PendingOk(w, todo, pending) && FreshOk(w, todo) && EqualOk(w, todo) && PrefixesOk(w)
  }

  /** The definitions of the call that is being logged. */
  function Pending(w: World): seq<Op>
  {
    if w.state.Some? && w.state.value in w.threads && w.threads[w.state.value].pc.Appending?
    then JobOps(w.threads[w.state.value].job)
    else []
  }

  ghost predicate DiskOk(w: World)
  {
    && Books(w, Unappended(w), Pending(w))
    && (w.state.Some? && w.state.value in w.threads && w.threads[w.state.value].pc.Clearing? ==>
          w.base == w.live && w.missing == {})
  }

  ghost predicate Inv(w: World)
  {
    && LocksOk(w)
    && (forall t :: t in w.threads ==> BatchOk(w, w.threads[t]))
    && DiskOk(w)
  }

  // ---------------------------------------------------------------- the locks

  /** Moving one thread keeps the locks right if each lock goes with the program counter. */
  lemma MoveKeepsLocks(w: World, w': World, t: Tid, pc: Pc)
    requires LocksOk(w) && t in w.threads
    requires var th, th' := w.threads[t], w.threads[t].(pc := pc);
             && w'.threads == w.threads[t := th'] && PcFitsJob(th') && w'.up == w.up
             && (HoldsState(pc) && !HoldsState(th.pc) ==> w.state.None?)
             && w'.state == (if HoldsState(pc) then Some(t) else if HoldsState(th.pc) then None else w.state)
             && (HoldsSchema(th') && !HoldsSchema(th) ==> w.schema.None?)
             && w'.schema == (if HoldsSchema(th') then Some(t) else if HoldsSchema(th) then None else w.schema)
    ensures LocksOk(w')
  {
    hide HoldsState, HoldsSchema, PcFitsJob;
  }

  lemma LockStepKeepsLocks(w: World, w': World, t: Tid)
    requires LocksOk(w) && t in w.threads && LockStep(w, w', t)
    ensures LocksOk(w')
  {
    hide LocksOk;
    assert PcFitsJob(w.threads[t]) && (HoldsSchema(w.threads[t]) <==> w.schema == Some(t)) by {
      LocksAt(w, t);
    }
    MoveKeepsLocks(w, w', t, w'.threads[t].pc);
  }

  lemma LocksAt(w: World, t: Tid)
    requires LocksOk(w) && t in w.threads
    ensures PcFitsJob(w.threads[t])
    ensures HoldsSchema(w.threads[t]) <==> w.schema == Some(t)
    ensures HoldsState(w.threads[t].pc) <==> w.state == Some(t)
  {
  }

  lemma EnteredStepKeepsLocks(w: World, w': World, t: Tid)
    requires LocksOk(w) && t in w.threads && w.threads[t].pc.InState? && EnteredStep(w, w', t)
    ensures LocksOk(w')
  {
    hide LocksOk, Define;
    LocksAt(w, t);
    MoveKeepsLocks(w, w', t, w'.threads[t].pc);
  }

  /** An append step moves its own thread and touches no lock and no catalog. */
  lemma AppendingFrame(w: World, w': World, t: Tid, rest: seq<Op>)
    requires t in w.threads && AppendingStep(w, w', t, rest)
    ensures t in w'.threads && w'.threads == w.threads[t := w.threads[t].(pc := w'.threads[t].pc)]
    ensures w'.threads[t].pc == if rest == [] || w'.threads[t].pc.Unlocking? then Unlocking else Appending(rest[1..])
    ensures w'.up == w.up && w'.schema == w.schema && w'.state == w.state && w'.live == w.live && w'.base == w.base
  {
  }

  lemma AppendingStepKeepsLocks(w: World, w': World, t: Tid, rest: seq<Op>)
    requires LocksOk(w) && t in w.threads && w.threads[t].pc == Appending(rest) && AppendingStep(w, w', t, rest)
    ensures LocksOk(w')
  {
    hide LocksOk, AppendingStep;
    LocksAt(w, t);
    AppendingFrame(w, w', t, rest);
    MoveKeepsLocks(w, w', t, w'.threads[t].pc);
  }

  /** Where a work step other than the two treated above takes its thread, and what becomes of the locks. */
  lemma WorkStepFrame(w: World, w': World, t: Tid)
    requires t in w.threads && WorkStep(w, w', t) && !w.threads[t].pc.InState? && !w.threads[t].pc.Appending?
    ensures t in w'.threads && w'.threads == w.threads[t := w.threads[t].(pc := w'.threads[t].pc)] && w'.up == w.up
    ensures var was, pc := w.threads[t].pc, w'.threads[t].pc;
            && w'.state == (if was.Unlocking? then None else w.state) && w'.schema == (if was.LastUnlock? then None else w.schema)
            && match was
               case Staging(_) => pc.LastUnlock? || pc.Staged?
               case Installing(_) => pc.Appending?
               case Clearing => pc.Unlocking?
               case Unlocking => pc == if w.threads[t].job.ReadJob? then Done else LastUnlock
               case LastUnlock => pc.Done?
               case _ => false
  {
    hide DefineAll, EndpointsDefined, EnteredStep, AppendingStep;
  }

  lemma WorkStepKeepsLocks(w: World, w': World, t: Tid)
    requires LocksOk(w) && t in w.threads && WorkStep(w, w', t)
    ensures LocksOk(w')
  {
    hide LocksOk, EnteredStep, AppendingStep;
    LocksAt(w, t);
    if w.threads[t].pc.InState? {
      EnteredStepKeepsLocks(w, w', t);
    } else if w.threads[t].pc.Appending? {
      AppendingStepKeepsLocks(w, w', t, w.threads[t].pc.rest);
    } else {
      hide WorkStep;
      WorkStepFrame(w, w', t);
      MoveKeepsLocks(w, w', t, w'.threads[t].pc);
    }
  }

  /** A writer's catalog update cannot meet a batch in flight: both need the schema lock. */
  lemma OtherBatchesIdle(w: World, t: Tid, u: Tid)
    requires LocksOk(w) && t in w.threads && u in w.threads && u != t && HoldsSchema(w.threads[t])
    ensures !w.threads[u].pc.Staging? && !w.threads[u].pc.Staged? && !w.threads[u].pc.Installing?
  {
  }

  lemma BatchesKept(w: World, w': World, t: Tid)
    requires LocksOk(w) && t in w.threads && t in w'.threads && w'.threads == w.threads[t := w'.threads[t]]
    requires forall u :: u in w.threads ==> BatchOk(w, w.threads[u])
    requires w'.live == w.live || HoldsSchema(w.threads[t])
    requires BatchOk(w', w'.threads[t])
    ensures forall u :: u in w'.threads ==> BatchOk(w', w'.threads[u])
  {
    hide DefineAll, LocksOk, HoldsSchema;
    forall u | u in w'.threads
      ensures BatchOk(w', w'.threads[u])
    {
      if u != t {
        assert BatchOk(w, w.threads[u]);
        if w'.live != w.live {
          OtherBatchesIdle(w, t, u);
        }
      }
    }
  }

  lemma EnteredStepKeepsBatches(w: World, w': World, t: Tid)
    requires LocksOk(w) && t in w.threads && w.threads[t].pc.InState? && EnteredStep(w, w', t)
    requires forall u :: u in w.threads ==> BatchOk(w, w.threads[u])
    ensures forall u :: u in w'.threads ==> BatchOk(w', w'.threads[u])
  {
    hide Define, DefineAll, LocksOk;
    BatchesKept(w, w', t);
  }

  /** Steps inside the locks that neither define nor append. */
  lemma OtherWorkKeepsBatches(w: World, w': World, t: Tid)
    requires LocksOk(w) && t in w.threads && WorkStep(w, w', t)
    requires !w.threads[t].pc.InState? && !w.threads[t].pc.Appending?
    requires forall u :: u in w.threads ==> BatchOk(w, w.threads[u])
    ensures forall u :: u in w'.threads ==> BatchOk(w', w'.threads[u])
  {
    hide Define, DefineAll, LocksOk, EnteredStep, AppendingStep;
    LocksAt(w, t);
    assert BatchOk(w, w.threads[t]);
    BatchesKept(w, w', t);
  }

  lemma LockStepKeepsBatches(w: World, w': World, t: Tid)
    requires LocksOk(w) && t in w.threads && LockStep(w, w', t)
    requires forall u :: u in w.threads ==> BatchOk(w, w.threads[u])
    ensures forall u :: u in w'.threads ==> BatchOk(w', w'.threads[u])
  {
    hide Define, DefineAll, LocksOk;
    assert BatchOk(w, w.threads[t]);
    BatchesKept(w, w', t);
  }

  lemma StepKeepsBatches(w: World, w': World, t: Tid)
    requires LocksOk(w) && t in w.threads && ThreadStep(w, w', t)
    requires forall u :: u in w.threads ==> BatchOk(w, w.threads[u])
    ensures forall u :: u in w'.threads ==> BatchOk(w', w'.threads[u])
  {
    hide BatchOk, LocksOk, EnteredStep, AppendingStep, LockStep;
    if LockStep(w, w', t) {
      LockStepKeepsBatches(w, w', t);
    } else if w.threads[t].pc.InState? {
      EnteredStepKeepsBatches(w, w', t);
    } else if w.threads[t].pc.Appending? {
      AppendingFrame(w, w', t, w.threads[t].pc.rest);
      AppendingKeepsBatches(w, w', t);
    } else {
      OtherWorkKeepsBatches(w, w', t);
    }
  }

  lemma AppendingKeepsBatches(w: World, w': World, t: Tid)
    requires LocksOk(w) && t in w.threads && t in w'.threads && w'.live == w.live
    requires w'.threads == w.threads[t := w'.threads[t]] && (w'.threads[t].pc.Unlocking? || w'.threads[t].pc.Appending?)
    requires forall u :: u in w.threads ==> BatchOk(w, w.threads[u])
    ensures forall u :: u in w'.threads ==> BatchOk(w', w'.threads[u])
  {
    hide LocksOk;
    BatchesKept(w, w', t);
  }


  // ----------------------------------------------------------------- the files

  lemma IncludesTransitive(a: Catalog, b: Catalog, c: Catalog)
    requires Includes(a, b) && Includes(b, c)
    ensures Includes(a, c)
  {
  }

  lemma PresentKept(big: Catalog, small: Catalog, ops: seq<Op>)
    requires Includes(big, small) && AllPresent(small, ops)
    ensures AllPresent(big, ops)
  {
  }

  lemma IncludesItself(c: Catalog)
    ensures Includes(c, c)
  {
  }

  /** Files that hold nothing beyond the live catalog always replay, to something within it. */
  lemma ReadWithin(w: World)
    requires FilesOk(w)
    ensures Replay(w.base, Ops(w.log)) == Success(Read(w))
    ensures Includes(w.live, Read(w)) && Includes(Read(w), w.base) && AllPresent(Read(w), Ops(w.log)) && KindsDisjoint(Read(w))
  {
    hide Replay;
    ReplayWithin(w.base, w.live, Ops(w.log));
    ReplayGrows(w.base, Ops(w.log));
  }

  lemma OpsSnoc(log: seq<Line>, line: Line)
    ensures Ops(log + [line]) == Ops(log) + (if line.Record? then [line.op] else [])
  {
    assert (log + [line])[..|log|] == log;
  }

  /** What the files say after an append: one definition more if its record was kept, none otherwise. */
  lemma LoggedReads(w: World, op: Op, written: Written)
    requires FilesOk(w) && Present(w.live, op)
    ensures var l := Logged(w, op, written);
            && FilesOk(l) && l.live == w.live
            && Ops(l.log) == (if Kept(w, written) then Ops(w.log) + [op] else Ops(w.log))
            && (Readable(l.log) <==> Readable(w.log) && !(written.Whole? && w.torn))
            && Includes(Read(l), Read(w))
            && (Kept(w, written) ==> Present(Read(l), op) && ReplayEntry(Read(w), op) == Success(Read(l)))
            && (!Kept(w, written) ==> Read(l) == Read(w))
  {
    hide Replay, ReplayEntry, Ops, EndpointsDefined;
    ReadWithin(w);
    if written.Whole? {
      OpsSnoc(w.log, if w.torn then Unreadable else Record(op));
      assert forall line :: line in w.log ==> line in w.log + [Unreadable];
      if !w.torn {
        ReplaySnoc(w.base, Ops(w.log), op);
        ReplayEntryWithin(Read(w), w.live, op);
      }
    }
    IncludesItself(Read(w));
  }

  /** The names recovered after an append. */
  lemma LoggedNames(w: World, op: Op, written: Written, name: string)
    requires FilesOk(w) && Present(w.live, op)
    ensures HasName(Read(Logged(w, op, written)), name) <==> HasName(Read(w), name) || (Kept(w, written) && name == NameOf(op))
  {
    hide Read, Logged, HasName;
    LoggedReads(w, op, written);
    if Kept(w, written) {
      ReplayEntryNames(Read(w), op, name);
    }
  }

  lemma LoggedFresh(w: World, rest: seq<Op>, written: Written)
    requires FilesOk(w) && AllPresent(w.live, rest) && rest != [] && FreshOk(w, rest)
    ensures FreshOk(Logged(w, rest[0], written), Rest(w, rest, written))
  {
    hide Logged, HasName, FilesOk, AllPresent, Read;
    var op := rest[0];
    assert op in rest;
    assert Present(w.live, op) by {
      OneOf(w.live, rest, op);
    }
    LoggedReads(w, op, written);
    forall name: string
      ensures HasName(Read(Logged(w, op, written)), name) <==> HasName(Read(w), name) || (Kept(w, written) && name == NameOf(op))
    {
      LoggedNames(w, op, written, name);
    }
    MissingSame(w, op, written);
    forall o | o in rest[1..]
      ensures NameOf(o) != NameOf(op)
    {
      var i :| 0 <= i < |rest[1..]| && rest[1..][i] == o;
      assert rest[i + 1] == o;
    }
    assert DistinctNames(rest[1..]) by {
      assert forall i :: 0 <= i < |rest[1..]| ==> rest[1..][i] == rest[i + 1];
    }
  }

  lemma OneOf(c: Catalog, ops: seq<Op>, op: Op)
    requires AllPresent(c, ops) && op in ops
    ensures Present(c, op)
  {
  }

  lemma MissingSame(w: World, op: Op, written: Written)
    ensures var l := Logged(w, op, written);
            && l.missing == w.missing && l.live == w.live && l.base == w.base && l.acked == w.acked && l.up == w.up
            && l.faulted == (w.faulted || (written.Whole? && w.torn))
  {
  }

  lemma LoggedEqual(w: World, rest: seq<Op>, written: Written)
    requires FilesOk(w) && AllPresent(w.live, rest) && rest != [] && EqualOk(w, rest)
    ensures EqualOk(Logged(w, rest[0], written), Rest(w, rest, written))
  {
    hide Logged, HasName, FilesOk, AllPresent, Read, Define, ReplayEntry, Readable;
    OneOf(w.live, rest, rest[0]);
    LoggedReads(w, rest[0], written);
    MissingSame(w, rest[0], written);
    if w.up && Readable(w.log) && w.missing == {} {
      ReplayOfDefine(Read(w), rest[0]);
    }
  }

  lemma LoggedPending(w: World, rest: seq<Op>, pending: seq<Op>, written: Written)
    requires FilesOk(w) && rest != [] && PendingOk(w, rest, pending)
    ensures PendingOk(Logged(w, rest[0], written), Rest(w, rest, written), pending)
  {
    hide Logged, FilesOk, Read, Readable, Present;
    LoggedReads(w, rest[0], written);
    MissingSame(w, rest[0], written);
    assert rest == [rest[0]] + rest[1..];
    forall op | op in pending && Present(Read(w), op)
      ensures Present(Read(Logged(w, rest[0], written)), op)
    {
      PresentIn(Read(Logged(w, rest[0], written)), Read(w), op);
    }
  }

  lemma PresentIn(big: Catalog, small: Catalog, op: Op)
    requires Includes(big, small) && Present(small, op)
    ensures Present(big, op)
  {
  }

  lemma LoggedAcked(w: World, op: Op, written: Written)
    requires FilesOk(w) && Present(w.live, op) && AckedOk(w)
    ensures AckedOk(Logged(w, op, written))
  {
    hide Logged, FilesOk, Read, Readable, Present;
    LoggedReads(w, op, written);
    MissingSame(w, op, written);
    forall o | o in w.acked && Present(Read(w), o)
      ensures Present(Read(Logged(w, op, written)), o)
    {
      PresentIn(Read(Logged(w, op, written)), Read(w), o);
    }
  }

  /** Records that follow the live catalog's definitions in order keep every prefix whole. */
  lemma LoggedPrefixes(w: World, rest: seq<Op>, written: Written)
    requires FilesOk(w) && AllPresent(w.live, rest) && rest != [] && w.up && EqualOk(w, rest) && PrefixesOk(w)
    ensures PrefixesOk(Logged(w, rest[0], written))
  {
    var op, l := rest[0], Logged(w, rest[0], written);
    LoggedReads(w, op, written);
    MissingSame(w, op, written);
    if !l.faulted {
      hide Logged, Read, Readable, Define, ReplayEntry, Replay, FilesOk;
      if Kept(w, written) {
        ReplayOfDefine(Read(w), op);
        ReadWhole(w);
        DefineGrows(Read(w), op);
        WholeSnoc(w.base, Ops(w.log), op, Read(w));
      }
    }
  }

  lemma ReadWhole(w: World)
    requires FilesOk(w) && PrefixesOk(w) && !w.faulted
    ensures EndpointsDefined(Read(w)) && Replay(w.base, Ops(w.log)) == Success(Read(w))
  {
    hide Replay, EndpointsDefined;
    ReadWithin(w);
    assert WholeAt(w.base, Ops(w.log), |Ops(w.log)|);
    assert Ops(w.log)[..|Ops(w.log)|] == Ops(w.log);
  }

  lemma WholeSnoc(base: Catalog, ops: seq<Op>, op: Op, c: Catalog)
    requires forall k :: 0 <= k <= |ops| ==> WholeAt(base, ops, k)
    requires Replay(base, ops) == Success(c) && ReplayEntry(c, op).Success? && EndpointsDefined(ReplayEntry(c, op).value)
    ensures forall k :: 0 <= k <= |ops| + 1 ==> WholeAt(base, ops + [op], k)
  {
    hide Replay, ReplayEntry, EndpointsDefined;
    ReplaySnoc(base, ops, op);
    forall k | 0 <= k <= |ops| + 1
      ensures WholeAt(base, ops + [op], k)
    {
      if k <= |ops| {
        assert (ops + [op])[..k] == ops[..k];
        assert WholeAt(base, ops, k);
      } else {
        assert (ops + [op])[..k] == ops + [op];
      }
    }
  }

  // ----------------------------------------------------------- steps of the books

  /** What the next record does to the books, however much of it was written. */
  lemma LoggedBooks(w: World, rest: seq<Op>, pending: seq<Op>, written: Written)
    requires Books(w, rest, pending) && rest != [] && w.up
    ensures Books(Logged(w, rest[0], written), Rest(w, rest, written), pending)
  {
    hide Logged, FilesOk, AckedOk, FreshOk, EqualOk, PrefixesOk, Rest, Kept;
    assert AllPresent(w.live, rest) && Present(w.live, rest[0]) by {
      assert rest[0] in rest;
    }
    LoggedReads(w, rest[0], written);
    LoggedAcked(w, rest[0], written);
    LoggedFresh(w, rest, written);
    LoggedEqual(w, rest, written);
    LoggedPending(w, rest, pending, written);
    LoggedPrefixes(w, rest, written);
  }

  /** Behind a torn tail the record counts as written but cannot be read. */
  lemma UnreadableBooks(w: World, rest: seq<Op>, pending: seq<Op>)
    requires Books(w, rest, pending) && rest != [] && !Readable(w.log)
    ensures Books(w, rest[1..], pending)
  {
    hide Read, Readable, FilesOk, AckedOk, PrefixesOk;
    assert forall i :: 0 <= i < |rest[1..]| ==> rest[1..][i] == rest[i + 1];
  }

  lemma FailedBooks(w: World, todo: seq<Op>, pending: seq<Op>)
    requires Books(w, todo, pending)
    ensures Books(w.(missing := w.missing + (set op | op in todo), faulted := true), [], [])
  {
    hide Readable, FilesOk, AckedOk, PrefixesOk, HasName, Present, Ops, Replay, DefineAll;
    var w' := w.(missing := w.missing + (set op | op in todo), faulted := true);
    assert Read(w') == Read(w);
    FaultedFrame(w, w');
    assert todo != [] ==> todo[0] in w'.missing;
  }

  /** The files and acknowledgements do not depend on what is missing. */
  lemma FaultedFrame(w: World, w': World)
    requires FilesOk(w) && AckedOk(w) && w'.live == w.live && w'.base == w.base && w'.log == w.log && w'.acked == w.acked
    ensures FilesOk(w') && AckedOk(w')
    ensures w'.faulted ==> PrefixesOk(w')
  {
    assert Read(w') == Read(w);
  }

  lemma DownBooks(w: World, todo: seq<Op>, pending: seq<Op>)
    requires Books(w, todo, pending)
    ensures Books(Down(w), [], [])
  {
    hide Readable, FilesOk, AckedOk, HasName, Present, Ops, Replay, DefineAll, WholeAt;
    var w' := Down(w);
    assert Read(w') == Read(w);
    FaultedFrame(w, w');
  }

  lemma AckedBooks(w: World, pending: seq<Op>)
    requires Books(w, [], pending)
    ensures Books(w.(acked := w.acked + (set op | op in pending)), [], [])
  {
    hide Readable, FilesOk, HasName, Present, Ops, Replay, DefineAll, WholeAt;
    var w' := w.(acked := w.acked + (set op | op in pending));
    assert Read(w') == Read(w);
    assert FilesOk(w') by {
      SameFiles(w, w');
    }
  }

  lemma SameFiles(w: World, w': World)
    requires FilesOk(w) && w'.live == w.live && w'.base == w.base && w'.log == w.log
    ensures FilesOk(w')
  {
  }

  /** Definitions reach the live catalog, their records not yet the log. */
  lemma GrownBooks(w: World, ops: seq<Op>)
    requires Books(w, [], []) && DefineAll(w.live, ops).Success?
    ensures Books(w.(live := DefineAll(w.live, ops).value), ops, ops)
  {
    var w' := w.(live := DefineAll(w.live, ops).value);
    DefineAllGrows(w.live, ops);
    DefineAllFresh(w.live, ops);
    GrownFiles(w, w');
    assert Read(w') == Read(w);
    hide Readable, Ops, Replay, Read, FilesOk, DefineAll;
    assert FreshOk(w', ops) by {
      ReadWithin(w);
      GrownFresh(w, w', ops);
    }
    assert AckedOk(w') by {
      forall op | op in w.acked
        ensures Present(w'.live, op)
      {
        PresentIn(w'.live, w.live, op);
      }
    }
    assert EqualOk(w', ops) by {
      if w.up && Readable(w.log) && w.missing == {} {
        NoMore(Read(w));
      }
    }
  }

  lemma NoMore(c: Catalog)
    ensures DefineAll(c, []) == Success(c)
  {
  }

  lemma GrownFiles(w: World, w': World)
    requires FilesOk(w) && Includes(w'.live, w.live) && KindsDisjoint(w'.live) && w'.base == w.base && w'.log == w.log
    ensures FilesOk(w')
  {
    IncludesTransitive(w'.live, w.live, w.base);
    PresentKept(w'.live, w.live, Ops(w.log));
  }

  lemma GrownFresh(w: World, w': World, ops: seq<Op>)
    requires FreshOk(w, []) && Read(w') == Read(w) && w'.missing == w.missing && Includes(w'.live, w.live) && Includes(w.live, Read(w))
    requires DistinctNames(ops) && forall op :: op in ops ==> !HasName(w.live, NameOf(op))
    ensures FreshOk(w', ops)
  {
    hide Read;
    forall m | m in w.missing
      ensures Present(w'.live, m) && HasName(w.live, NameOf(m))
    {
      PresentIn(w'.live, w.live, m);
      PresentHasName(w.live, m);
    }
  }

  /** Writing the base: it holds everything, and the old log over it changes nothing. */
  lemma BaseBooks(w: World)
    requires Books(w, [], [])
    ensures Books(w.(base := w.live, missing := {}), [], [])
  {
    var w' := w.(base := w.live, missing := {});
    ReplayOverNewBase(w.live, Ops(w.log));
    assert Read(w') == w.live;
    IncludesItself(w.live);
    NoMore(w.live);
    hide Readable, Ops, Read, DefineAll, HasName;
    forall k | 0 <= k <= |Ops(w.log)|
      ensures !w.faulted ==> WholeAt(w.live, Ops(w.log), k)
    {
      ReplayOverNewBase(w.live, Ops(w.log)[..k]);
    }
  }

  lemma ClearedBooks(w: World)
    requires Books(w, [], []) && w.base == w.live && w.missing == {}
    ensures Books(w.(log := [], torn := false, faulted := !EndpointsDefined(w.live)), [], [])
  {
    var w' := w.(log := [], torn := false, faulted := !EndpointsDefined(w.live));
    assert Read(w') == w.live && Ops(w'.log) == [] && Ops(w'.log)[..0] == [];
    NoMore(w.live);
    assert WholeAt(w.live, [], 0) || !EndpointsDefined(w.live);
    hide Ops, Read, DefineAll, HasName, KindsDisjoint;
  }

  /** Starting again from files that can be read. */
  lemma RestartedBooks(w: World, w': World)
    requires Books(w, [], []) && Restart(w, w')
    ensures Books(w', [], [])
  {
    ReadWithin(w);
    assert Read(w') == Read(w) == w'.live;
    IncludesItself(w'.live);
    NoMore(w'.live);
    if !w.faulted {
      ReadWhole(w);
    }
    hide Ops, Read, DefineAll, HasName, Replay;
  }

  // ------------------------------------------------------- every step keeps them

  /** The state lock's holder decides what is still to be appended. */
  lemma HolderIs(w: World, t: Tid)
    requires LocksOk(w) && t in w.threads && HoldsState(w.threads[t].pc)
    ensures w.state == Some(t)
    ensures Unappended(w) == if w.threads[t].pc.Appending? then w.threads[t].pc.rest else []
    ensures Pending(w) == if w.threads[t].pc.Appending? then JobOps(w.threads[t].job) else []
    ensures w.up
  {
  }

  lemma HolderDisk(w: World, t: Tid)
    requires LocksOk(w) && t in w.threads && HoldsState(w.threads[t].pc)
    requires var pc := w.threads[t].pc;
             && Books(w, if pc.Appending? then pc.rest else [], if pc.Appending? then JobOps(w.threads[t].job) else [])
             && (pc.Clearing? ==> w.base == w.live && w.missing == {})
    ensures DiskOk(w)
  {
    hide Books, LocksOk;
    HolderIs(w, t);
  }

  /** The books do not depend on the threads, the locks or the tail. */
  lemma BooksFrame(w: World, w': World, todo: seq<Op>, pending: seq<Op>)
    requires Books(w, todo, pending)
    requires w'.up == w.up && w'.live == w.live && w'.base == w.base && w'.log == w.log
    requires w'.acked == w.acked && w'.missing == w.missing && w'.faulted == w.faulted
    ensures Books(w', todo, pending)
  {
    hide DefineAll, Replay, Ops, Present, HasName, WholeAt;
    assert Read(w') == Read(w);
  }

  /** A step that only moves a thread, or takes or gives up a lock, with nothing left to append. */
  lemma QuietStep(w: World, w': World, t: Tid, pc: Pc)
    requires DiskOk(w) && LocksOk(w) && t in w.threads && LocksOk(w')
    requires w' == Moved(w, t, pc).(schema := w'.schema, state := w'.state)
    requires !w.threads[t].pc.Appending? && !pc.Appending? && !pc.Clearing?
    ensures DiskOk(w')
  {
    hide Books;
    assert Unappended(w') == Unappended(w) && Pending(w') == Pending(w) by {
      if w.state.Some? && w.state.value in w.threads && w.threads[w.state.value].pc.Appending? {
        var u := w.state.value;
        assert u != t && w'.threads[u] == w.threads[u];
        assert w'.state == Some(u);
      }
    }
    BooksFrame(w, w', Unappended(w), Pending(w));
  }

  lemma LockStepKeepsDisk(w: World, w': World, t: Tid)
    requires DiskOk(w) && LocksOk(w) && t in w.threads && LockStep(w, w', t) && LocksOk(w')
    ensures DiskOk(w')
  {
    hide DiskOk, LocksOk;
    QuietStep(w, w', t, w'.threads[t].pc);
  }

  lemma InstallStep(w: World, w': World, t: Tid, ops: seq<Op>)
    requires DiskOk(w) && LocksOk(w) && LocksOk(w') && t in w.threads && HoldsState(w.threads[t].pc) && !w.threads[t].pc.Appending?
    requires DefineAll(w.live, ops).Success? && JobOps(w.threads[t].job) == ops
    requires w' == Moved(w, t, Appending(ops)).(live := DefineAll(w.live, ops).value)
    ensures DiskOk(w')
  {
    hide Books, LocksOk, DefineAll;
    HolderIs(w, t);
    GrownBooks(w, ops);
    BooksFrame(w.(live := DefineAll(w.live, ops).value), w', ops, ops);
    HolderDisk(w', t);
  }

  lemma DefineOne(c: Catalog, op: Op)
    ensures DefineAll(c, [op]) == Define(c, op)
  {
    assert [op][1..] == [];
  }

  lemma BaseStep(w: World, w': World, t: Tid)
    requires DiskOk(w) && LocksOk(w) && LocksOk(w') && t in w.threads && w.threads[t].pc.InState?
    requires w' == Moved(w, t, Clearing).(base := w.live, missing := {})
    ensures DiskOk(w')
  {
    hide Books, LocksOk;
    HolderIs(w, t);
    BaseBooks(w);
    BooksFrame(w.(base := w.live, missing := {}), w', [], []);
    HolderDisk(w', t);
  }

  lemma ClearStep(w: World, w': World, t: Tid)
    requires DiskOk(w) && LocksOk(w) && LocksOk(w') && t in w.threads && w.threads[t].pc.Clearing?
    requires w' == Moved(w, t, Unlocking).(log := [], torn := false, faulted := !EndpointsDefined(w.live))
    ensures DiskOk(w')
  {
    hide Books, LocksOk, EndpointsDefined;
    HolderIs(w, t);
    ClearedBooks(w);
    BooksFrame(w.(log := [], torn := false, faulted := !EndpointsDefined(w.live)), w', [], []);
    HolderDisk(w', t);
  }

  lemma EnteredStepKeepsDisk(w: World, w': World, t: Tid)
    requires DiskOk(w) && LocksOk(w) && LocksOk(w') && t in w.threads && w.threads[t].pc.InState? && EnteredStep(w, w', t)
    ensures DiskOk(w')
  {
    hide DiskOk, Define, DefineAll, LocksOk;
    match w.threads[t].job {
      case DefineJob(op) =>
        if w' == Moved(w, t, Unlocking) {
          QuietStep(w, w', t, Unlocking);
        } else {
          DefineOne(w.live, op);
          InstallStep(w, w', t, [op]);
        }
      case BatchJob(_) => QuietStep(w, w', t, Staging(w.live));
      case CheckpointJob =>
        if w' == Moved(w, t, Unlocking) {
          QuietStep(w, w', t, Unlocking);
        } else {
          BaseStep(w, w', t);
        }
      case ReadJob => QuietStep(w, w', t, Unlocking);
    }
  }

  lemma AckStep(w: World, w': World, t: Tid)
    requires DiskOk(w) && LocksOk(w) && LocksOk(w') && t in w.threads && w.threads[t].pc == Appending([])
    requires w' == Moved(w, t, Unlocking).(acked := w.acked + (set op | op in JobOps(w.threads[t].job)))
    ensures DiskOk(w')
  {
    hide Books, LocksOk;
    HolderIs(w, t);
    AckedBooks(w, JobOps(w.threads[t].job));
    BooksFrame(w.(acked := w.acked + (set op | op in JobOps(w.threads[t].job))), w', [], []);
    HolderDisk(w', t);
  }

  lemma AppendStep(w: World, w': World, t: Tid, rest: seq<Op>)
    requires DiskOk(w) && LocksOk(w) && LocksOk(w') && t in w.threads && w.threads[t].pc == Appending(rest) && rest != []
    requires w' == Moved(Logged(w, rest[0], Whole), t, Appending(rest[1..]))
    ensures DiskOk(w')
  {
    hide Books, LocksOk, Readable;
    HolderIs(w, t);
    var pending, l := JobOps(w.threads[t].job), Logged(w, rest[0], Whole);
    LoggedBooks(w, rest, pending, Whole);
    if w.torn {
      assert Unreadable in l.log;
      assert !Readable(l.log) by {
        NotReadable(l.log);
      }
      UnreadableBooks(l, rest, pending);
    }
    BooksFrame(l, w', rest[1..], pending);
    HolderDisk(w', t);
  }

  lemma NotReadable(log: seq<Line>)
    requires Unreadable in log
    ensures !Readable(log)
  {
  }

  lemma FailedAppendStep(w: World, w': World, t: Tid, rest: seq<Op>, written: Written)
    requires DiskOk(w) && LocksOk(w) && LocksOk(w') && t in w.threads && w.threads[t].pc == Appending(rest) && rest != []
    requires FailedAppend(w, w', t, rest, written)
    ensures DiskOk(w')
  {
    hide Books, LocksOk, Rest;
    HolderIs(w, t);
    var pending, l, todo := JobOps(w.threads[t].job), Logged(w, rest[0], written), Rest(w, rest, written);
    LoggedBooks(w, rest, pending, written);
    FailedBooks(l, todo, pending);
    BooksFrame(l.(missing := l.missing + (set op | op in todo), faulted := true), w', [], []);
    HolderDisk(w', t);
  }

  lemma AppendingStepKeepsDisk(w: World, w': World, t: Tid, rest: seq<Op>)
    requires DiskOk(w) && LocksOk(w) && LocksOk(w') && t in w.threads && w.threads[t].pc == Appending(rest) && AppendingStep(w, w', t, rest)
    ensures DiskOk(w')
  {
    hide DiskOk, LocksOk, FailedAppend, Logged;
    if rest == [] {
      AckStep(w, w', t);
    } else if written :| FailedAppend(w, w', t, rest, written) {
      FailedAppendStep(w, w', t, rest, written);
    } else {
      AppendStep(w, w', t, rest);
    }
  }

  lemma WorkStepKeepsDisk(w: World, w': World, t: Tid)
    requires DiskOk(w) && LocksOk(w) && LocksOk(w') && t in w.threads && BatchOk(w, w.threads[t]) && WorkStep(w, w', t)
    ensures DiskOk(w')
  {
    hide DiskOk, Define, DefineAll, LocksOk, EnteredStep, AppendingStep, EndpointsDefined;
    LocksAt(w, t);
    var th := w.threads[t];
    match th.pc {
      case InState => EnteredStepKeepsDisk(w, w', t);
      case Installing(staged) => InstallStep(w, w', t, JobOps(th.job));
      case Appending(rest) => AppendingStepKeepsDisk(w, w', t, rest);
      case Clearing =>
        if w' == Moved(w, t, Unlocking) {
          QuietStep(w, w', t, Unlocking);
        } else {
          ClearStep(w, w', t);
        }
      case Staging(_) => QuietStep(w, w', t, w'.threads[t].pc);
      case Unlocking => QuietStep(w, w', t, w'.threads[t].pc);
      case LastUnlock => QuietStep(w, w', t, Done);
      case _ => assert false;
    }
  }

  lemma DieKeepsInv(w: World, w': World)
    requires Inv(w) && Die(w, w')
    ensures Inv(w')
  {
    hide Books, Logged;
    assert Unappended(w') == [] && Pending(w') == [];
    if w' == Down(w) {
      DownBooks(w, Unappended(w), Pending(w));
    } else {
      var written :| w' == Down(Logged(w, Unappended(w)[0], written));
      LoggedBooks(w, Unappended(w), Pending(w), written);
      DownBooks(Logged(w, Unappended(w)[0], written), Rest(w, Unappended(w), written), Pending(w));
    }
  }

  lemma RestartKeepsInv(w: World, w': World)
    requires Inv(w) && Restart(w, w')
    ensures Inv(w')
  {
    hide Books, Recovered;
    assert Unappended(w) == [] && Pending(w) == [];
    assert Unappended(w') == [] && Pending(w') == [];
    RestartedBooks(w, w');
  }

  lemma SpawnKeepsLocks(w: World, w': World, t: Tid, job: Job)
    requires LocksOk(w) && Spawn(w, w', t, job)
    ensures LocksOk(w') && Unappended(w') == Unappended(w) && Pending(w') == Pending(w)
  {
    assert forall u :: u in w.threads ==> w'.threads[u] == w.threads[u];
  }

  lemma SpawnKeepsInv(w: World, w': World, t: Tid, job: Job)
    requires Inv(w) && Spawn(w, w', t, job)
    ensures Inv(w')
  {
    SpawnKeepsLocks(w, w', t, job);
    BooksFrame(w, w', Unappended(w), Pending(w));
    hide Books, LocksOk, DefineAll;
    assert forall u :: u in w.threads ==> w'.threads[u] == w.threads[u];
  }

  lemma InitInv(w: World)
    requires Init(w)
    ensures Inv(w)
  {
    assert Ops(w.log) == [] && Ops(w.log)[..0] == [];
    IncludesItself(w.live);
    NoMore(w.live);
  }

  lemma NextKeepsInv(w: World, w': World)
    requires Inv(w) && Next(w, w')
    ensures Inv(w')
  {
    hide DiskOk, LockStep, WorkStep, Spawn, Die, Restart, LocksOk;
    if t :| t in w.threads && ThreadStep(w, w', t) {
      StepKeepsBatches(w, w', t);
      if LockStep(w, w', t) {
        LockStepKeepsLocks(w, w', t);
        LockStepKeepsDisk(w, w', t);
      } else {
        WorkStepKeepsLocks(w, w', t);
        WorkStepKeepsDisk(w, w', t);
      }
    } else if t, job :| Spawn(w, w', t, job) {
      SpawnKeepsInv(w, w', t, job);
    } else if Die(w, w') {
      DieKeepsInv(w, w');
    } else {
      RestartKeepsInv(w, w');
    }
  }

  lemma {:induction false} RunKeepsInv(run: seq<World>, i: nat)
    requires IsRun(run) && i < |run|
    ensures Inv(run[i])
  {
    if i == 0 {
      InitInv(run[0]);
    } else {
      RunKeepsInv(run, i - 1);
      NextKeepsInv(run[i - 1], run[i]);
    }
  }
}
