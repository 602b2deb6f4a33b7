/**
 Schema memory as the server's handlers work it (grm-mcp/src/server.rs, grm-mcp/src/tools.rs):
 a live catalog beside a base file and an append log. Each method is a handler, or the stretch
 of one, running with no other in between, and takes exactly the steps of `SchemaLocks`. It may
 run in any reachable world: after failed appends, deaths and restarts, over a torn log.
 */
module SchemaMemory {
  import opened Prelude
  import opened SchemaCatalog
  import opened SchemaLocks
  import opened SchemaRecovery

  class SchemaState {
    var up: bool
    var catalog: Catalog
    var base: Catalog
    var log: seq<Line>
    var torn: bool
    ghost var run: seq<World>

    /** The memory and the files are those of the last world of a run. */
    ghost predicate Valid()
      reads this
    {
      run != [] && IsRun(run) && Shows(Last(run))
    }

    ghost predicate Shows(w: World)
      reads this
    {
      w.up == up && w.live == catalog && w.base == base && w.log == log && w.torn == torn
    }

    /** The files give back the live catalog. */
    ghost predicate InStep()
      reads this
      requires run != []
    {
      Recovered(Last(run)) == Some(catalog)
    }

    /** No handler is at work, and this thread id is new. */
    ghost predicate Free(t: Tid)
      reads this
      requires run != []
    {
      Quiet(Last(run)) && t !in Last(run).threads
    }

    /** `initialize_schema_memory` on a base file alone; where there is none an empty one is written. */
    constructor Initialize(found: Option<Catalog>)
      requires found.Some? ==> KindsDisjoint(found.value)
      ensures Valid() && up && InStep() && Quiet(Last(run)) && log == [] && !torn
      ensures catalog == base == if found.Some? then found.value else EMPTY
    {
      var start := if found.Some? then found.value else EMPTY;
      up, catalog, base, log, torn := true, start, start, [], false;
      run := [Started(start)];
      new;
      StartedRun(start);
    }

    /** The process dies inside an append, or anywhere else; what an append had written stays. */
    method Die(ghost w': World, log': seq<Line>, torn': bool)
      requires Valid() && SchemaLocks.Die(Last(run), w') && w'.log == log' && w'.torn == torn'
      modifies this
      ensures Valid() && run == old(run) + [w'] && !up && base == old(base)
    {
      assert w'.live == catalog && w'.base == base && !w'.up by {
        hide IsRun;
      }
      hide SchemaLocks.Die;
      assert Next(Last(run), w');
      Extend(run, w');
      run := run + [w'];
      up, log, torn := false, log', torn';
    }

    /** `read_operations`, on lines: the records, or nothing if a line does not decode. */
    static method ReadLines(log: seq<Line>) returns (r: Option<seq<Op>>)
      ensures r == if Readable(log) then Some(Ops(log)) else None
    {
      var ops := [];
      for i := 0 to |log|
        invariant Readable(log[..i]) && ops == Ops(log[..i])
      {
        assert log[..i + 1] == log[..i] + [log[i]];
        OpsSnoc(log[..i], log[i]);
        if log[i].Unreadable? {
          assert log[i] in log;
          return None;
        }
        ops := ops + [log[i].op];
      }
      assert log[..|log|] == log;
      return Some(ops);
    }

    /** `apply_session_log`: record by record, stopping at the first error. */
    static method ReplayAll(base: Catalog, ops: seq<Op>) returns (r: Result<Catalog, SchemaError>)
      ensures r == Replay(base, ops)
    {
      var c := base;
      assert ops[..0] == [];
      for i := 0 to |ops|
        invariant Replay(base, ops[..i]) == Success(c)
      {
        assert ops[..i + 1] == ops[..i] + [ops[i]];
        ReplaySnoc(base, ops[..i], ops[i]);
        var entry := ReplayEntry(c, ops[i]);
        if entry.Failure? {
          FailedPrefix(base, ops, i + 1);
          return entry;
        }
        c := entry.value;
      }
      assert ops[..|ops|] == ops;
      return Success(c);
    }

    /** `initialize_schema_memory` where files exist: it starts exactly if every line can be read. */
    method Recover() returns (ok: bool)
      requires Valid() && !up
      modifies this
      ensures Valid() && old(run) <= run && base == old(base) && log == old(log) && torn == old(torn)
      ensures ok <==> Readable(log)
      ensures ok ==> up && InStep() && Quiet(Last(run)) && |run| == |old(run)| + 1
      ensures !ok ==> run == old(run) && catalog == old(catalog) && !up
    {
      ghost var w := Last(run);
      RunKeepsInv(run, |run| - 1);
      ReadBack(w);
      hide IsRun, Next, Inv, Replay, Ops;
      var ops := ReadLines(log);
      if ops.None? {
        return false;
      }
      var c := ReplayAll(base, ops.value);
      ghost var w' := w.(up := true, live := c.value, missing := {});
      assert Restart(w, w');
      Restarted(run, w');
      run := run + [w'];
      up, catalog := true, c.value;
      return true;
    }

    /** One step of thread t, in the model's terms. */
    ghost method Take(w': World, t: Tid)
      requires run != [] && IsRun(run) && t in Last(run).threads && ThreadStep(Last(run), w', t)
      modifies this`run
      ensures run != [] && IsRun(run) && run == old(run) + [w'] && Last(run) == w'
    {
      hide ThreadStep, IsRun;
      ExtendByThread(run, w', t);
      run := run + [w'];
    }

    /** One record: written and synced, or an error after any part of it was written. */
    method AppendOne(ghost t: Tid, op: Op, ghost rest: seq<Op>) returns (ok: bool)
      requires Valid() && t in Last(run).threads && rest != [] && op == rest[0] && Last(run).threads[t].pc == Appending(rest)
      modifies this
      ensures Valid() && old(run) <= run && up == old(up) && catalog == old(catalog) && base == old(base)
      ensures MovedOn(old(Last(run)), Last(run), t, if ok then Appending(rest[1..]) else Unlocking)
      ensures ok ==> Last(run).missing == old(Last(run)).missing
      ensures log == old(log) + [Entry(old(torn), op)] || (!ok && log == old(log))
      ensures ok ==> log != old(log) && !torn
    {
      hide IsRun, MovedOn, Answered;
      ghost var w := Last(run);
      var wrote: Written, fails: bool := *, *;
      if !fails {
        wrote := Whole;
      }
      AnsweredIs(w, t, rest, fails, wrote);
      Take(Answered(w, t, rest, fails, wrote), t);
      match wrote {
        case Nothing =>
        case Part => torn := true;
        case Whole => log, torn := log + [Entry(torn, op)], false;
      }
      ok := !fails;
    }

    /** The per-record append loop; it stops at the first append that fails. */
    method AppendOps(ghost t: Tid, ops: seq<Op>) returns (ok: bool)
      requires Valid() && t in Last(run).threads && Last(run).threads[t].pc == Appending(ops)
      modifies this
      ensures Valid() && old(run) <= run && up == old(up) && catalog == old(catalog) && base == old(base)
      ensures MovedOn(old(Last(run)), Last(run), t, if ok then Appending([]) else Unlocking)
      ensures ok ==> log == old(log) + Lines(old(torn), ops) && torn == (old(torn) && ops == [])
                     && Last(run).missing == old(Last(run)).missing
      ensures !ok ==> exists k: nat :: StoppedAt(old(log), log, old(torn), ops, k)
    {
      hide IsRun, MovedOn, Lines, StoppedAt;
      ghost var w0 := Last(run);
      assert ops[0..] == ops && ops[..0] == [] && log + [] == log;
      NoLines(torn);
      NotMoved(w0, t);
      for i := 0 to |ops|
        invariant Valid() && old(run) <= run && up == old(up) && catalog == old(catalog) && base == old(base)
        invariant MovedOn(w0, Last(run), t, Appending(ops[i..])) && Last(run).missing == w0.missing
        invariant log == old(log) + Lines(old(torn), ops[..i]) && torn == (old(torn) && i == 0)
      {
        ghost var w := Last(run);
        assert ops[i..][1..] == ops[i + 1..] && ops[..i + 1] == ops[..i] + [ops[i]];
        LinesSnoc(old(torn), ops[..i], ops[i]);
        MovedAt(w0, w, t, Appending(ops[i..]));
        ok := AppendOne(t, ops[i], ops[i..]);
        MovedTwice(w0, w, Last(run), t, Appending(ops[i..]), if ok then Appending(ops[i + 1..]) else Unlocking);
        if !ok {
          Stopped(old(log), log, old(torn), ops, i);
          return;
        }
      }
      assert ops[..|ops|] == ops && ops[|ops|..] == [];
      ok := true;
    }

    /**
     `grm_schema_define_node` and `grm_schema_define_edge`: reject, or define and log. A rejected
     definition changes nothing. An append that fails leaves the definition live, not
     acknowledged, and its record perhaps in the log.
     */
    method DefineModel(ghost t: Tid, op: Op) returns (r: Result<(), DefineError>)
      requires Valid() && Free(t)
      modifies this
      ensures Valid() && old(run) <= run && Quiet(Last(run)) && base == old(base)
      // accepted exactly with a free name and, for an edge model, node models at both ends
      ensures r.Failure? && r.error.Rejected? <==> !Acceptable(old(catalog), op)
      ensures r.Failure? && r.error.Rejected? ==>
                && Refused(old(catalog), op, r.error.error) && catalog == old(catalog)
                && log == old(log) && torn == old(torn) && Last(run).missing == old(Last(run)).missing
      ensures Acceptable(old(catalog), op) ==> Added(old(catalog), op, catalog)
      ensures r.Success? ==> log == old(log) + [Entry(old(torn), op)] && !torn && Last(run).missing == old(Last(run)).missing
      ensures r.Failure? ==> log == old(log) || log == old(log) + [Entry(old(torn), op)]
      ensures Last(run).acked == old(Last(run)).acked + if r.Success? then {op} else {}
      ensures r.Success? && old(InStep()) && !old(torn) ==> InStep()
    {
      hide IsRun, MovedOn, Recovered, Define;
      ghost var was := run;
      var result := Define(catalog, op);
      DefineExactly(catalog, op);
      hide Acceptable, Added, Refused;
      if result.Failure? {
        run := DefineRejected(run, t, op);
        return Failure(Rejected(result.error));
      }
      run := ReachLogging(run, t, op);
      catalog := result.value;
      ghost var w := Last(run);
      var ok := AppendOps(t, [op]);
      LinesOne(old(torn), op);
      run := Finish(w, run, t, ok);
      StillInStep(was, run, [op]);
      r := if ok then Success(()) else Failure(NotLogged);
    }

    /** The batch's definitions on a copy of the catalog; the first error abandons it. */
    static method StageBatch(c: Catalog, ops: seq<Op>) returns (r: Result<Catalog, SchemaError>)
      ensures r == DefineAll(c, ops)
    {
      var staged := c;
      assert ops[0..] == ops;
      for i := 0 to |ops|
        invariant DefineAll(staged, ops[i..]) == DefineAll(c, ops)
      {
        assert ops[i..][0] == ops[i] && ops[i..][1..] == ops[i + 1..];
        var one := Define(staged, ops[i]);
        if one.Failure? {
          return one;
        }
        staged := one.value;
      }
      assert ops[|ops|..] == [];
      return Success(staged);
    }

    /**
     `neo4j_batch`: stage on a copy, commit, install the copy, log. A batch that is not applied
     changes nothing; an applied one whose append fails is live, not acknowledged, and a prefix
     of its records is in the log.
     */
    method Batch(ghost t: Tid, ops: seq<Op>, commits: bool) returns (answer: BatchAnswer)
      requires Valid() && Free(t)
      modifies this
      ensures Valid() && old(run) <= run && Quiet(Last(run)) && base == old(base)
      // applied exactly if it commits and each definition is acceptable after those before it
      ensures answer.NotApplied? <==> !(commits && AcceptableTo(old(catalog), ops, |ops|))
      ensures if answer.NotApplied? then catalog == old(catalog) else AddedAll(old(catalog), ops, catalog)
      ensures answer.NotApplied? ==> log == old(log) && torn == old(torn) && Last(run).missing == old(Last(run)).missing
      ensures answer.Applied? ==> log == old(log) + Lines(old(torn), ops) && torn == (old(torn) && ops == [])
                                  && Last(run).missing == old(Last(run)).missing
      ensures answer.AppliedNotLogged? ==> exists k: nat :: StoppedAt(old(log), log, old(torn), ops, k)
      ensures Last(run).acked == old(Last(run)).acked + if answer.Applied? then (set op | op in ops) else {}
      ensures answer.Applied? && old(InStep()) && !old(torn) ==> InStep()
    {
      hide IsRun, MovedOn, Recovered, DefineAll;
      ghost var was := run;
      var staged := StageBatch(catalog, ops);
      DefineAllExactly(catalog, ops);
      hide AcceptableTo, AddedAll, FailsAt;
      if !commits || staged.Failure? {
        run := BatchGivesUp(run, t, ops);
        return NotApplied;
      }
      run := BatchInstalls(run, t, ops);
      catalog := staged.value;
      ghost var w := Last(run);
      var ok := AppendOps(t, ops);
      run := Finish(w, run, t, ok);
      StillInStep(was, run, ops);
      answer := if ok then Applied else AppliedNotLogged;
    }

    /**
     `grm_schema_checkpoint`: write the base, then remove the log. It may fail before the base is
     replaced, or between the two. Afterwards, unless the base was never written, the files give
     back the live catalog whatever had failed before, except if the log kept cannot be read.
     */
    method Checkpoint(ghost t: Tid) returns (ok: bool, ghost wrote: bool)
      requires Valid() && Free(t)
      modifies this
      ensures Valid() && old(run) <= run && Quiet(Last(run)) && catalog == old(catalog) && Last(run).acked == old(Last(run)).acked
      ensures ok ==> wrote && log == [] && !torn
      ensures !ok ==> log == old(log) && torn == old(torn)
      ensures wrote ==> base == catalog && Last(run).missing == {}
      ensures !wrote ==> base == old(base) && Last(run).missing == old(Last(run)).missing
      ensures wrote && Readable(log) ==> InStep()
    {
      hide IsRun, Recovered;
      var writes, removes: bool := *, *;
      ok, wrote := writes && removes, writes;
      run := Checkpointed(run, t, writes, removes);
      if writes {
        base := catalog;
        if removes {
          log, torn := [], false;
        }
      }
      InStepExactly(run);
    }
  }

  /** A definition was refused, or it is live but its append failed. */
  datatype DefineError = Rejected(error: SchemaError) | NotLogged

  datatype BatchAnswer = NotApplied | Applied | AppliedNotLogged

  /** The world after an append returned. */
  function Answered(w: World, t: Tid, rest: seq<Op>, fails: bool, written: Written): World
    requires t in w.threads && rest != []
  {
    if fails then
      Moved(Logged(w, rest[0], written), t, Unlocking)
        .(missing := w.missing + (set o | o in Rest(w, rest, written)), faulted := true)
    else Moved(Logged(w, rest[0], Whole), t, Appending(rest[1..]))
  }

  lemma AnsweredIs(w: World, t: Tid, rest: seq<Op>, fails: bool, written: Written)
    requires t in w.threads && rest != [] && w.threads[t].pc == Appending(rest) && (!fails ==> written.Whole?)
    ensures var a := Answered(w, t, rest, fails, written);
            && ThreadStep(w, a, t) && MovedOn(w, a, t, if fails then Unlocking else Appending(rest[1..]))
            && (!fails ==> a.missing == w.missing) && a.up == w.up && a.live == w.live && a.base == w.base
            && a.log == (if written.Whole? then w.log + [Entry(w.torn, rest[0])] else w.log)
            && a.torn == (if written.Nothing? then w.torn else written.Part?)
  {
    var a := Answered(w, t, rest, fails, written);
    assert fails ==> FailedAppend(w, a, t, rest, written);
    assert AppendingStep(w, a, t, rest);
  }

  /** The world after thread t moved and appended: its locks, memory and acknowledgements as before. */
  ghost predicate MovedOn(w: World, w': World, t: Tid, pc: Pc)
  {
    && t in w.threads && w'.threads == w.threads[t := w.threads[t].(pc := pc)]
    && w'.up == w.up && w'.schema == w.schema && w'.state == w.state && w'.live == w.live && w'.base == w.base && w'.acked == w.acked
    && w.missing <= w'.missing
  }

  /** The records before the failed one, and perhaps that one. */
  ghost predicate StoppedAt(before: seq<Line>, after: seq<Line>, torn: bool, ops: seq<Op>, k: nat)
  {
    k < |ops| && (after == before + Lines(torn, ops[..k]) || after == before + Lines(torn, ops[..k + 1]))
  }

  function Entry(torn: bool, op: Op): Line
  {
    if torn then Unreadable else Record(op)
  }

  lemma ReadBack(w: World)
    requires Inv(w)
    ensures Replay(w.base, Ops(w.log)).Success?
    ensures !w.up ==> w.threads == map[] && w.schema.None? && w.state.None?
  {
    ReadWithin(w);
  }

  lemma Restarted(run: seq<World>, w': World)
    requires IsRun(run) && Restart(Last(run), w')
    ensures IsRun(run + [w']) && Last(run + [w']) == w'
  {
    hide Restart;
    assert Next(Last(run), w');
    Extend(run, w');
  }

  /** The lines that appending these records leaves; the first is unreadable behind a torn tail. */
  function Lines(torn: bool, ops: seq<Op>): (lines: seq<Line>)
    ensures |lines| == |ops|
  {
    if ops == [] then []
    else Lines(torn, ops[..|ops| - 1]) + [if torn && |ops| == 1 then Unreadable else Record(ops[|ops| - 1])]
  }

  lemma LinesSnoc(torn: bool, ops: seq<Op>, op: Op)
    ensures Lines(torn, ops + [op]) == Lines(torn, ops) + [if torn && ops == [] then Unreadable else Record(op)]
  {
    assert (ops + [op])[..|ops|] == ops;
  }

  lemma NoLines(torn: bool)
    ensures Lines(torn, []) == []
  {
  }

  lemma Stopped(before: seq<Line>, after: seq<Line>, torn: bool, ops: seq<Op>, k: nat)
    requires k < |ops| && (after == before + Lines(torn, ops[..k]) || after == before + Lines(torn, ops[..k + 1]))
    ensures StoppedAt(before, after, torn, ops, k)
  {
  }

  lemma LinesOne(torn: bool, op: Op)
    ensures Lines(torn, [op]) == [Entry(torn, op)]
  {
    assert Lines(torn, [op][..0]) == [];
  }

  lemma {:induction false} LinesReadable(ops: seq<Op>)
    ensures Readable(Lines(false, ops))
  {
    if ops != [] {
      LinesReadable(ops[..|ops| - 1]);
    }
  }

  // ------------------------------------------------------ handlers as steps

  lemma NotMoved(w: World, t: Tid)
    requires t in w.threads
    ensures MovedOn(w, w, t, w.threads[t].pc)
  {
  }

  lemma MovedAt(w: World, w': World, t: Tid, pc: Pc)
    requires MovedOn(w, w', t, pc)
    ensures t in w'.threads && w'.threads[t].pc == pc
  {
  }

  lemma MovedTwice(w: World, w': World, w'': World, t: Tid, pc: Pc, pc': Pc)
    requires MovedOn(w, w', t, pc) && MovedOn(w', w'', t, pc')
    ensures MovedOn(w, w'', t, pc')
  {
  }

  /** With no writer at work the files are in step exactly when nothing is missing and the log can be read. */
  lemma InStepExactly(run: seq<World>)
    requires run != [] && IsRun(run) && Quiet(Last(run))
    ensures Recovered(Last(run)) == Some(Last(run).live) <==> Last(run).missing == {} && Readable(Last(run).log)
  {
    hide IsRun, Spoiled, Recovered, Readable;
    ReplayEqualsLiveExactly(run, |run| - 1);
    UnreadableExactly(run, |run| - 1);
  }

  lemma StillInStep(was: seq<World>, run: seq<World>, ops: seq<Op>)
    requires was != [] && run != [] && IsRun(was) && IsRun(run) && Quiet(Last(was)) && Quiet(Last(run))
    ensures (Recovered(Last(was)) == Some(Last(was).live) && Last(run).missing == Last(was).missing
             && Last(run).log == Last(was).log + Lines(false, ops)) ==> Recovered(Last(run)) == Some(Last(run).live)
  {
    hide IsRun, Recovered;
    LinesReadable(ops);
    InStepExactly(was);
    InStepExactly(run);
  }

  /** A definition the catalog rejects. */
  lemma DefineRejected(run: seq<World>, t: Tid, op: Op) returns (more: seq<World>)
    requires run != [] && IsRun(run) && Quiet(Last(run)) && t !in Last(run).threads
    ensures run <= more && more != [] && IsRun(more) && Last(more) == Ended(Last(run), t, DefineJob(op))
  {
    hide IsRun;
    var entered := Enter(run, t, DefineJob(op));
    var w' := Moved(Last(entered), t, Unlocking);
    ExtendByThread(entered, w', t);
    more := ReachDone(entered + [w'], t);
    assert Last(more).threads == Ended(Last(run), t, DefineJob(op)).threads;
  }

  function Ended(w: World, t: Tid, job: Job): World
  {
    w.(threads := w.threads[t := Thread(job, Done)])
  }

  /** A batch up to where its transaction runs. */
  lemma BatchStages(run: seq<World>, t: Tid, ops: seq<Op>) returns (more: seq<World>)
    requires run != [] && IsRun(run) && Quiet(Last(run)) && t !in Last(run).threads
    ensures var w := Last(run);
            run <= more && more != [] && IsRun(more) && Last(more) == w.(schema := Some(t), threads := w.threads[t := Thread(BatchJob(ops), Staging(w.live))])
  {
    hide IsRun;
    var w := Last(run);
    var entered := Enter(run, t, BatchJob(ops));
    var w' := Moved(Last(entered), t, Staging(w.live)).(state := None);
    assert EnteredStep(Last(entered), w', t);
    ExtendByThread(entered, w', t);
    more := entered + [w'];
    assert w'.threads == w.threads[t := Thread(BatchJob(ops), Staging(w.live))];
  }

  lemma BatchGivesUp(run: seq<World>, t: Tid, ops: seq<Op>) returns (more: seq<World>)
    requires run != [] && IsRun(run) && Quiet(Last(run)) && t !in Last(run).threads
    ensures run <= more && more != [] && IsRun(more) && Last(more) == Ended(Last(run), t, BatchJob(ops))
  {
    hide IsRun;
    var staging := BatchStages(run, t, ops);
    var w1 := Moved(Last(staging), t, LastUnlock);
    ExtendByThread(staging, w1, t);
    var w2 := Moved(w1, t, Done).(schema := None);
    ExtendByThread(staging + [w1], w2, t);
    more := staging + [w1] + [w2];
    assert w2.threads == Ended(Last(run), t, BatchJob(ops)).threads;
  }

  lemma BatchInstalls(run: seq<World>, t: Tid, ops: seq<Op>) returns (more: seq<World>)
    requires run != [] && IsRun(run) && Quiet(Last(run)) && t !in Last(run).threads && DefineAll(Last(run).live, ops).Success?
    ensures var w := Last(run);
            run <= more && more != [] && IsRun(more) && Last(more) == w.(schema := Some(t), state := Some(t), live := DefineAll(w.live, ops).value,
                                            threads := w.threads[t := Thread(BatchJob(ops), Appending(ops))])
  {
    hide IsRun, DefineAll;
    var staging := BatchStages(run, t, ops);
    var w := Last(run);
    var staged := DefineAll(w.live, ops).value;
    var w1 := Moved(Last(staging), t, Staged(w.live, staged));
    ExtendByThread(staging, w1, t);
    var w2 := Moved(w1, t, Installing(staged)).(state := Some(t));
    assert LockStep(w1, w2, t);
    ExtendByThread(staging + [w1], w2, t);
    var w3 := Moved(w2, t, Appending(ops)).(live := staged);
    ExtendByThread(staging + [w1] + [w2], w3, t);
    more := staging + [w1] + [w2] + [w3];
    assert w3.threads == w.threads[t := Thread(BatchJob(ops), Appending(ops))];
  }

  /** After the append loop: acknowledge if it succeeded, and let go of the locks. */
  lemma Finish(w: World, run: seq<World>, t: Tid, ok: bool) returns (more: seq<World>)
    requires run != [] && IsRun(run) && MovedOn(w, Last(run), t, if ok then Appending([]) else Unlocking) && w.up
    requires !w.threads[t].job.ReadJob?
    ensures run <= more && more != [] && IsRun(more) && Quiet(Last(more))
    ensures var w', v := Last(run), Last(more);
            && v.live == w'.live && v.base == w'.base && v.log == w'.log && v.torn == w'.torn && v.missing == w'.missing
            && v.acked == w.acked + if ok then (set op | op in JobOps(w.threads[t].job)) else {}
  {
    hide IsRun;
    if ok {
      more := ReachAcked(run, t);
    } else {
      more := ReachDone(run, t);
    }
  }

  /** A checkpoint that fails to write the base, or to remove the log, or neither. */
  lemma Checkpointed(run: seq<World>, t: Tid, writes: bool, removes: bool) returns (more: seq<World>)
    requires run != [] && IsRun(run) && Quiet(Last(run)) && t !in Last(run).threads
    ensures run <= more && more != [] && IsRun(more) && Quiet(Last(more))
    ensures var w, v := Last(run), Last(more);
            && v.live == w.live && v.acked == w.acked
            && v.base == (if writes then w.live else w.base) && v.missing == (if writes then {} else w.missing)
            && v.log == (if writes && removes then [] else w.log) && v.torn == (w.torn && !(writes && removes))
  {
    hide IsRun;
    if writes {
      more := BaseWritten(run, t, removes);
    } else {
      var entered := Enter(run, t, CheckpointJob);
      var w1 := Moved(Last(entered), t, Unlocking);
      ExtendByThread(entered, w1, t);
      more := ReachDone(entered + [w1], t);
    }
  }

  lemma BaseWritten(run: seq<World>, t: Tid, removes: bool) returns (more: seq<World>)
    requires run != [] && IsRun(run) && Quiet(Last(run)) && t !in Last(run).threads
    ensures run <= more && more != [] && IsRun(more) && Quiet(Last(more))
    ensures var w, v := Last(run), Last(more);
            && v.live == w.live && v.acked == w.acked && v.base == w.live && v.missing == {}
            && v.log == (if removes then [] else w.log) && v.torn == (w.torn && !removes)
  {
    hide IsRun, EndpointsDefined;
    var entered := Enter(run, t, CheckpointJob);
    var w := Last(entered);
    var w1 := Moved(w, t, Clearing).(base := w.live, missing := {});
    assert EnteredStep(w, w1, t);
    ExtendByThread(entered, w1, t);
    var w2 := Moved(w1, t, Unlocking);
    if removes {
      w2 := w2.(log := [], torn := false, faulted := !EndpointsDefined(w1.live));
    }
    assert WorkStep(w1, w2, t);
    ExtendByThread(entered + [w1], w2, t);
    more := ReachDone(entered + [w1] + [w2], t);
  }
}
