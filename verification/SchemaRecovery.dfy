/**
 What the schema-memory protocol of `SchemaLocks` guarantees over whole runs: no definition is
 lost in memory, some call can always go on, and the exact conditions under which the files
 give back what was acknowledged, what is live, and catalogs with all endpoints. Runs in which
 they do not are exhibited at the end.
 */
module SchemaRecovery {
  import opened Prelude
  import opened SchemaCatalog
  import opened SchemaLocks
  import D = DurableLog
  import F = FileReplace

  // ------------------------------------------------------------- main results

  /** No step but a restart takes a definition out of the live catalog; in particular a batch's install does not. */
  lemma NoDefinitionLost(run: seq<World>, i: nat)
    requires IsRun(run) && i + 1 < |run| && !Restart(run[i], run[i + 1])
    ensures Includes(run[i + 1].live, run[i].live)
  {
    hide Inv, ThreadStep, Includes, Spawn, Die, Restart;
    RunKeepsInv(run, i);
    var w, w' := run[i], run[i + 1];
    assert Next(w, w');
    NextGrows(w, w');
  }

  lemma NextGrows(w: World, w': World)
    requires Inv(w) && Next(w, w')
    ensures w.acked <= w'.acked && (Restart(w, w') || Includes(w'.live, w.live))
  {
    hide Inv, ThreadStep, Includes, Restart, Spawn, Die;
    IncludesItself(w.live);
    if t :| t in w.threads && ThreadStep(w, w', t) {
      InvParts(w, t);
      StepGrowsLive(w, w', t);
    } else {
      assert w'.acked == w.acked && (Restart(w, w') || w'.live == w.live) by {
        OthersKeepLive(w, w');
      }
    }
  }

  lemma OthersKeepLive(w: World, w': World)
    requires (exists u, job :: Spawn(w, w', u, job)) || Die(w, w') || Restart(w, w')
    ensures w'.acked == w.acked && (Restart(w, w') || w'.live == w.live)
  {
  }

  lemma InvParts(w: World, t: Tid)
    requires Inv(w) && t in w.threads
    ensures LocksOk(w) && BatchOk(w, w.threads[t])
  {
  }

  lemma StepGrowsLive(w: World, w': World, t: Tid)
    requires LocksOk(w) && t in w.threads && BatchOk(w, w.threads[t]) && ThreadStep(w, w', t)
    ensures Includes(w'.live, w.live) && w.acked <= w'.acked
  {
    hide LocksOk, Includes, Define, DefineAll, EnteredStep, EndpointsDefined;
    IncludesItself(w.live);
    match w.threads[t].pc {
      case InState => EnteredStepGrowsLive(w, w', t);
      case Installing(staged) => DefineAllGrows(w.live, JobOps(w.threads[t].job));
      case _ =>
    }
  }

  lemma EnteredStepGrowsLive(w: World, w': World, t: Tid)
    requires t in w.threads && EnteredStep(w, w', t)
    ensures Includes(w'.live, w.live) && w.acked <= w'.acked
  {
    hide Includes, Define;
    IncludesItself(w.live);
    if w.threads[t].job.DefineJob? && Define(w.live, w.threads[t].job.op).Success? {
      DefineGrows(w.live, w.threads[t].job.op);
    }
  }

  /**
   While a batch's transaction runs, with the state lock free, the live catalog stays the one it
   snapshotted: what it overwrites it started from, and giving up leaves the catalog it found.
   */
  lemma BatchOverwritesItsSnapshot(run: seq<World>, i: nat, t: Tid)
    requires IsRun(run) && i < |run| && t in run[i].threads
    requires run[i].threads[t].pc.Staging? || run[i].threads[t].pc.Staged?
    ensures run[i].live == run[i].threads[t].pc.snapshot
    ensures run[i].threads[t].pc.Staged? ==>
              DefineAll(run[i].live, JobOps(run[i].threads[t].job)) == Success(run[i].threads[t].pc.staged)
  {
    RunKeepsInv(run, i);
    assert BatchOk(run[i], run[i].threads[t]);
  }

  // ---------------------------------------------------- records behind a torn tail

  /** This step ended a line that began with part of another record. */
  ghost predicate Spoils(w: World, w': World)
  {
    w.torn && |w'.log| == |w.log| + 1
  }

  /** Step k put a record behind a torn tail, and the log was not removed up to state j. */
  ghost predicate SpoiledAt(run: seq<World>, k: nat, j: nat)
    requires k < j < |run|
  {
    Spoils(run[k], run[k + 1]) && forall m :: k < m <= j ==> run[m].log != []
  }

  /** A record was put behind a torn tail since the log was last removed. */
  ghost predicate Spoiled(run: seq<World>, j: nat)
    requires j < |run|
  {
    exists k: nat :: k < j && SpoiledAt(run, k, j)
  }

  ghost predicate Grew(w: World, w': World)
  {
    w'.log == w.log || exists line: Line :: w'.log == w.log + [line] && (line == Unreadable <==> w.torn)
  }

  /** The log stays, or is removed, or grows by a line, unreadable exactly behind a torn tail. */
  lemma LogStep(w: World, w': World)
    requires LocksOk(w) && Next(w, w')
    ensures w'.log == [] || Grew(w, w')
  {
    hide ThreadStep, Spawn, Logged, Recovered;
    if t :| t in w.threads && ThreadStep(w, w', t) {
      ThreadLog(w, w', t);
    } else if u, job :| Spawn(w, w', u, job) {
      SpawnLog(w, w', u, job);
    } else if Die(w, w') {
      DieLog(w, w');
    }
  }

  lemma DieLog(w: World, w': World)
    requires Die(w, w')
    ensures Grew(w, w')
  {
    if w' != Down(w) {
      var written :| w' == Down(Logged(w, Unappended(w)[0], written));
      LoggedLog(w, Unappended(w)[0], written);
    }
  }

  lemma SpawnLog(w: World, w': World, t: Tid, job: Job)
    requires Spawn(w, w', t, job)
    ensures w'.log == w.log
  {
  }

  lemma ThreadLog(w: World, w': World, t: Tid)
    requires t in w.threads && ThreadStep(w, w', t)
    ensures w'.log == [] || Grew(w, w')
  {
    hide AppendingStep, DefineAll, Define, EndpointsDefined;
    if w.threads[t].pc.Appending? {
      AppendingLog(w, w', t, w.threads[t].pc.rest);
    }
  }

  lemma AppendingLog(w: World, w': World, t: Tid, rest: seq<Op>)
    requires t in w.threads && AppendingStep(w, w', t, rest)
    ensures Grew(w, w')
  {
    if rest != [] {
      if written :| FailedAppend(w, w', t, rest, written) {
        LoggedLog(w, rest[0], written);
      } else {
        LoggedLog(w, rest[0], Whole);
      }
    }
  }

  lemma LoggedLog(w: World, op: Op, written: Written)
    ensures Grew(w, Logged(w, op, written))
  {
    var line := if w.torn then Unreadable else Record(op);
    assert written.Whole? ==> Logged(w, op, written).log == w.log + [line];
  }

  lemma {:induction false} SpoiledStays(run: seq<World>, k: nat, j: nat)
    requires IsRun(run) && k < j < |run| && SpoiledAt(run, k, j)
    ensures Unreadable in run[j].log
    decreases j
  {
    hide Next, Inv, DiskOk, LocksOk;
    RunKeepsInv(run, j - 1);
    InvLocks(run[j - 1]);
    assert Next(run[j - 1], run[j]);
    LogStep(run[j - 1], run[j]);
    if k < j - 1 {
      SpoiledStays(run, k, j - 1);
    } else {
      var line: Line :| run[j].log == run[k].log + [line] && (line == Unreadable <==> run[k].torn);
      assert run[j].log[|run[k].log|] == Unreadable;
    }
  }

  lemma InvLocks(w: World)
    requires Inv(w)
    ensures LocksOk(w)
  {
  }

  /** The log cannot be read exactly when a record was put behind a torn tail since it was last removed. */
  lemma {:induction false} UnreadableExactly(run: seq<World>, j: nat)
    requires IsRun(run) && j < |run|
    ensures Readable(run[j].log) <==> !Spoiled(run, j)
  {
    hide Next, Inv, DiskOk, LocksOk;
    if Spoiled(run, j) {
      var k: nat :| k < j && SpoiledAt(run, k, j);
      SpoiledStays(run, k, j);
    }
    if !Readable(run[j].log) && j > 0 {
      UnreadableExactly(run, j - 1);
      RunKeepsInv(run, j - 1);
      InvLocks(run[j - 1]);
      assert Next(run[j - 1], run[j]);
      LogStep(run[j - 1], run[j]);
      if Readable(run[j - 1].log) {
        var line: Line :| run[j].log == run[j - 1].log + [line] && (line == Unreadable <==> run[j - 1].torn);
        assert SpoiledAt(run, j - 1, j);
      } else {
        var k: nat :| k < j - 1 && SpoiledAt(run, k, j - 1);
        assert SpoiledAt(run, k, j);
      }
    }
  }

  /**
   A definition whose call returned Ok is recovered from the files, then and ever after, whatever
   appends fail and however often the process dies, exactly as long as no record was put behind
   a torn tail since the log was last removed. In memory it stays throughout.
   */
  lemma AckedSurvivesExactly(run: seq<World>, i: nat, j: nat, op: Op)
    requires IsRun(run) && i <= j < |run| && op in run[i].acked
    ensures (Recovered(run[j]).Some? && Present(Recovered(run[j]).value, op)) <==> !Spoiled(run, j)
    ensures Present(run[j].live, op)
  {
    RunKeepsInv(run, j);
    AckedGrows(run, i, j);
    UnreadableExactly(run, j);
    ReadWithin(run[j]);
    hide LocksOk, PrefixesOk, Replay, Spoiled, Ops, Present;
  }

  lemma {:induction false} AckedGrows(run: seq<World>, i: nat, j: nat)
    requires IsRun(run) && i <= j < |run|
    ensures run[i].acked <= run[j].acked
    decreases j
  {
    hide Inv, Next, Init;
    if i < j {
      AckedGrows(run, i, j - 1);
      RunKeepsInv(run, j - 1);
      assert Next(run[j - 1], run[j]);
      NextGrows(run[j - 1], run[j]);
    }
  }

  /**
   With no writer at work the files give back the live catalog exactly when no failed append left
   a definition without its record and none was put behind a torn tail.
   */
  lemma ReplayEqualsLiveExactly(run: seq<World>, i: nat)
    requires IsRun(run) && i < |run| && run[i].up && run[i].schema.None?
    ensures Recovered(run[i]) == Some(run[i].live) <==> run[i].missing == {} && !Spoiled(run, i)
  {
    RunKeepsInv(run, i);
    NoneAppending(run[i]);
    UnreadableExactly(run, i);
    ReadWithin(run[i]);
    NoMore(Read(run[i]));
    hide PrefixesOk, Replay, Spoiled, Ops, DefineAll, Read;
    if op :| op in run[i].missing {
      PresentHasName(run[i].live, op);
    }
  }

  lemma NoneAppending(w: World)
    requires LocksOk(w) && w.schema.None?
    ensures Unappended(w) == []
  {
  }

  /**
   While since the log was last removed every append succeeded and none landed behind a torn
   tail, a stop after any record recovers a catalog whose edge models have their endpoints.
   */
  lemma EveryPrefixRecovers(run: seq<World>, i: nat, k: nat)
    requires IsRun(run) && i < |run| && !run[i].faulted && k <= |Ops(run[i].log)|
    ensures Readable(run[i].log)
    ensures Replay(run[i].base, Ops(run[i].log)[..k]).Success?
    ensures EndpointsDefined(Replay(run[i].base, Ops(run[i].log)[..k]).value)
  {
    RunKeepsInv(run, i);
    hide LocksOk, Replay, Ops, EndpointsDefined;
    assert WholeAt(run[i].base, Ops(run[i].log), k);
  }

  /**
   Without that, as long as the log can be read, a stop after any record recovers a whole catalog
   exactly when the base is whole and every edge record finds its endpoints, or its own model, in
   what the records before it recover.
   */
  lemma EveryPrefixRecoversExactly(run: seq<World>, i: nat)
    requires IsRun(run) && i < |run| && Readable(run[i].log)
    ensures var base, ops := run[i].base, Ops(run[i].log);
            (forall k :: 0 <= k <= |ops| ==> WholeAt(base, ops, k))
            <==> EndpointsDefined(base) && forall k :: 0 <= k < |ops| ==> EndsFound(base, ops, k)
  {
    RunKeepsInv(run, i);
    ReadWithin(run[i]);
    hide LocksOk, Replay, Ops, EndpointsDefined, WholeAt, EndsFound, PrefixesOk;
    PrefixesWholeExactly(run[i].base, Ops(run[i].log), |Ops(run[i].log)|);
  }

  /**
   What a failed append endangers, and exactly when. Logging an edge model keeps the recovered
   catalog whole exactly when both endpoints are recovered, or the edge model was recovered already.
   */
  lemma EdgeLoggedExactly(run: seq<World>, i: nat, e: RelModel)
    requires IsRun(run) && i < |run| && !run[i].torn && Present(run[i].live, RegisterRel(e))
    requires Recovered(run[i]).Some? && EndpointsDefined(Recovered(run[i]).value)
    ensures var c, l := Recovered(run[i]).value, Logged(run[i], RegisterRel(e), Whole);
            Recovered(l).Some?
            && (EndpointsDefined(Recovered(l).value) <==> e.name in c.rels || (e.from in c.nodes && e.to in c.nodes))
  {
    var w, op := run[i], RegisterRel(e);
    RunKeepsInv(run, i);
    LoggedReads(w, op, Whole);
    ReadWithin(w);
    ReadWithin(Logged(w, op, Whole));
    hide LocksOk, Replay, Ops, ReplayEntry, EndpointsDefined, Books;
    EdgeRecordExactly(Read(w), e);
  }

  /** Endpoints whose own definitions were acknowledged are recovered, so an edge between them is safe to log. */
  lemma AckedEndpointsSuffice(run: seq<World>, i: nat, j: nat, e: RelModel, a: NodeModel, b: NodeModel)
    requires IsRun(run) && i <= j < |run| && !run[j].torn && Present(run[j].live, RegisterRel(e))
    requires Recovered(run[j]).Some? && EndpointsDefined(Recovered(run[j]).value)
    requires RegisterNode(a) in run[i].acked && RegisterNode(b) in run[i].acked && a.name == e.from && b.name == e.to
    ensures Recovered(Logged(run[j], RegisterRel(e), Whole)).Some?
    ensures EndpointsDefined(Recovered(Logged(run[j], RegisterRel(e), Whole)).value)
  {
    hide Recovered, Logged, EndpointsDefined, Spoiled;
    AckedSurvivesExactly(run, i, j, RegisterNode(a));
    AckedSurvivesExactly(run, i, j, RegisterNode(b));
    UnreadableExactly(run, j);
    RecoveredReadable(run[j]);
    EdgeLoggedExactly(run, j, e);
  }

  lemma RecoveredReadable(w: World)
    requires Recovered(w).Some?
    ensures Readable(w.log)
  {
  }

  /** A call still running, or waiting, can be helped along: some thread can always step. */
  lemma SomeThreadCanStep(run: seq<World>, i: nat, t: Tid)
    requires IsRun(run) && i < |run| && t in run[i].threads && !run[i].threads[t].pc.Done?
    ensures exists u, w' :: u in run[i].threads && ThreadStep(run[i], w', u)
  {
    hide DiskOk;
    RunKeepsInv(run, i);
    var w := run[i];
    if w.state.Some? {
      HolderOfStateSteps(w, w.state.value);
    } else if w.schema.Some? {
      HolderOfSchemaSteps(w, w.schema.value);
    } else {
      var th := w.threads[t];
      assert th.pc.Start?;
      if th.job.ReadJob? {
        assert ThreadStep(w, Moved(w, t, InState).(state := Some(t)), t);
      } else {
        assert ThreadStep(w, Moved(w, t, HasSchema).(schema := Some(t)), t);
      }
    }
  }

  /** The state lock's holder never waits for a lock. */
  lemma HolderOfStateSteps(w: World, t: Tid)
    requires LocksOk(w) && w.state == Some(t)
    ensures t in w.threads && exists w' :: ThreadStep(w, w', t)
  {
    hide Define, DefineAll;
    LocksAt(w, t);
    var th := w.threads[t];
    var w' := match th.pc
      case InState =>
        if th.job.BatchJob? then Moved(w, t, Staging(w.live)).(state := None) else Moved(w, t, Unlocking)
      case Installing(staged) => Moved(w, t, Appending(JobOps(th.job))).(live := staged)
      case Appending(rest) =>
        if rest == [] then Moved(w, t, Unlocking).(acked := w.acked + (set op | op in JobOps(th.job)))
        else Moved(Logged(w, rest[0], Whole), t, Appending(rest[1..]))
      case Clearing => Moved(w, t, Unlocking)
      case Unlocking => Moved(w, t, if th.job.ReadJob? then Done else LastUnlock).(state := None)
      case _ => w;
    assert ThreadStep(w, w', t);
  }

  /** With the state lock free, the schema lock's holder can go on: locks are taken in one order. */
  lemma HolderOfSchemaSteps(w: World, t: Tid)
    requires LocksOk(w) && w.state.None? && w.schema == Some(t)
    ensures t in w.threads && exists w' :: ThreadStep(w, w', t)
  {
    hide Define, DefineAll;
    LocksAt(w, t);
    var th := w.threads[t];
    match th.pc {
      case HasSchema => assert ThreadStep(w, Moved(w, t, InState).(state := Some(t)), t);
      case Staged(_, staged) => assert ThreadStep(w, Moved(w, t, Installing(staged)).(state := Some(t)), t);
      case Staging(_) => assert ThreadStep(w, Moved(w, t, LastUnlock), t);
      case LastUnlock => assert ThreadStep(w, Moved(w, t, Done).(schema := None), t);
      case _ => assert false;
    }
  }

  // ----------------------------------------------------------- the log as bytes

  /** The bytes of complete lines. */
  function LogBytes(text: seq<F.Bytes>): F.Bytes
  {
    if text == [] then [] else text[0] + [D.NEWLINE] + LogBytes(text[1..])
  }

  /** Each line's bytes decode to its record, or to none. */
  ghost predicate Spells(decode: F.Bytes -> Option<Op>, text: seq<F.Bytes>, log: seq<Line>)
  {
    && |text| == |log|
    && forall i :: 0 <= i < |log| ==>
         && D.NEWLINE !in text[i] && !D.Blank(text[i])
         && decode(text[i]) == if log[i].Record? then Some(log[i].op) else None
  }

  lemma {:induction false} OpsCons(log: seq<Line>)
    requires log != []
    ensures Ops(log) == (if log[0].Record? then [log[0].op] else []) + Ops(log[1..])
  {
    if |log| > 1 {
      OpsCons(log[..|log| - 1]);
      assert log[..|log| - 1][1..] == log[1..][..|log| - 2];
    } else {
      assert log[..0] == [] && log[1..] == [];
    }
  }

  /** The scan of the log's bytes, whatever torn tail follows, reads what `Readable` and `Ops` say. */
  lemma {:induction false} ScanReadsLog(decode: F.Bytes -> Option<Op>, text: seq<F.Bytes>, log: seq<Line>, tail: F.Bytes)
    requires Spells(decode, text, log) && D.NEWLINE !in tail
    ensures D.ReadLog(decode, LogBytes(text) + tail)
            == if Readable(log) then Success(Ops(log)) else Failure(D.Malformed)
    decreases |text|
  {
    hide D.ReadLog, Ops, D.Blank;
    if text == [] {
      NoBytes(decode, tail);
    } else {
      FirstLine(decode, text, tail);
      ScanReadsLog(decode, text[1..], log[1..], tail);
      OpsCons(log);
      assert log == [log[0]] + log[1..];
    }
  }

  lemma NoBytes(decode: F.Bytes -> Option<Op>, tail: F.Bytes)
    requires D.NEWLINE !in tail
    ensures D.ReadLog(decode, LogBytes([]) + tail) == Success([]) && Ops([]) == []
  {
    assert LogBytes([]) + tail == tail;
    D.NoLineEnd(tail);
  }

  lemma FirstLine(decode: F.Bytes -> Option<Op>, text: seq<F.Bytes>, tail: F.Bytes)
    requires text != [] && D.NEWLINE !in text[0] && !D.Blank(text[0])
    ensures D.ReadLog(decode, LogBytes(text) + tail)
            == if decode(text[0]).None? then Failure(D.Malformed)
               else D.Prepend([decode(text[0]).value], D.ReadLog(decode, LogBytes(text[1..]) + tail))
  {
    hide D.ReadLog, D.Blank;
    Assoc3(text[0] + [D.NEWLINE], LogBytes(text[1..]), tail);
    D.ReadRecord(decode, text[0], LogBytes(text[1..]) + tail);
  }

  // ------------------------------------------------------------- runs that go wrong

  function Last(run: seq<World>): World
    requires run != []
  {
    run[|run| - 1]
  }

  lemma Extend(run: seq<World>, w: World)
    requires run != [] && IsRun(run) && Next(Last(run), w)
    ensures IsRun(run + [w]) && Last(run + [w]) == w
  {
    hide Next, Init;
    var more := run + [w];
    forall i | 0 <= i < |more| - 1
      ensures Next(more[i], more[i + 1])
    {
      if i < |run| - 1 {
        assert more[i] == run[i] && more[i + 1] == run[i + 1];
      }
    }
  }

  lemma ExtendByThread(run: seq<World>, w: World, t: Tid)
    requires run != [] && IsRun(run) && t in Last(run).threads && ThreadStep(Last(run), w, t)
    ensures IsRun(run + [w]) && Last(run + [w]) == w
  {
    hide ThreadStep, IsRun;
    Extend(run, w);
  }

  /** Nothing holds a lock. */
  predicate Quiet(w: World)
  {
    w.up && w.schema.None? && w.state.None?
  }

  /** The world in which call t has defined `op` and is about to log it. */
  function Logging(w: World, t: Tid, op: Op): World
    requires Define(w.live, op).Success?
  {
    w.(schema := Some(t), state := Some(t), live := Define(w.live, op).value,
       threads := w.threads[t := Thread(DefineJob(op), Appending([op]))])
  }

  /** From a quiet world a new writer can get hold of both locks. */
  lemma Enter(run: seq<World>, t: Tid, job: Job) returns (more: seq<World>)
    requires run != [] && IsRun(run) && Quiet(Last(run)) && t !in Last(run).threads && !job.ReadJob?
    ensures var w := Last(run);
            run <= more && more != [] && IsRun(more) && Last(more) == w.(schema := Some(t), state := Some(t), threads := w.threads[t := Thread(job, InState)])
  {
    var w := Last(run);
    var w1 := w.(threads := w.threads[t := Thread(job, Start)]);
    var w2 := Moved(w1, t, HasSchema).(schema := Some(t));
    var w3 := Moved(w2, t, InState).(state := Some(t));
    hide IsRun;
    assert Spawn(w, w1, t, job);
    Extend(run, w1);
    assert LockStep(w1, w2, t);
    ExtendByThread(run + [w1], w2, t);
    assert LockStep(w2, w3, t);
    ExtendByThread(run + [w1] + [w2], w3, t);
    more := run + [w1] + [w2] + [w3];
    assert w3.threads == w.threads[t := Thread(job, InState)];
  }

  /** A definition the catalog accepts gets as far as its append. */
  lemma ReachLogging(run: seq<World>, t: Tid, op: Op) returns (more: seq<World>)
    requires run != [] && IsRun(run) && Quiet(Last(run)) && t !in Last(run).threads && Define(Last(run).live, op).Success?
    ensures run <= more && more != [] && IsRun(more) && Last(more) == Logging(Last(run), t, op)
  {
    hide Define, IsRun;
    var entered := Enter(run, t, DefineJob(op));
    var w := Last(entered);
    var w' := Moved(w, t, Appending([op])).(live := Define(w.live, op).value);
    assert EnteredStep(w, w', t);
    ExtendByThread(entered, w', t);
    more := entered + [w'];
    assert w'.threads == Logging(Last(run), t, op).threads;
  }

  /** A call that has logged, or given up, lets go of its locks and is done. */
  lemma ReachDone(run: seq<World>, t: Tid) returns (more: seq<World>)
    requires run != [] && IsRun(run) && t in Last(run).threads && Last(run).threads[t].pc.Unlocking? && !Last(run).threads[t].job.ReadJob?
    ensures run <= more && more != [] && IsRun(more) && Last(more) == Moved(Last(run), t, Done).(schema := None, state := None)
  {
    var w := Last(run);
    var w1 := Moved(w, t, LastUnlock).(state := None);
    var w2 := Moved(w1, t, Done).(schema := None);
    hide IsRun;
    ExtendByThread(run, w1, t);
    ExtendByThread(run + [w1], w2, t);
    more := run + [w1] + [w2];
  }

  /** A call all of whose records are logged acknowledges and is done. */
  lemma ReachAcked(run: seq<World>, t: Tid) returns (more: seq<World>)
    requires run != [] && IsRun(run) && t in Last(run).threads && Last(run).threads[t].pc == Appending([]) && !Last(run).threads[t].job.ReadJob?
    ensures var w := Last(run);
            run <= more && more != [] && IsRun(more)
            && Last(more) == Moved(w, t, Done).(schema := None, state := None, acked := w.acked + (set o | o in JobOps(w.threads[t].job)))
  {
    hide IsRun;
    var w := Last(run);
    var w' := Moved(w, t, Unlocking).(acked := w.acked + (set o | o in JobOps(w.threads[t].job)));
    assert AppendingStep(w, w', t, []);
    ExtendByThread(run, w', t);
    more := ReachDone(run + [w'], t);
    assert Last(more).threads == Moved(w, t, Done).threads;
  }

  /** A whole definition whose append succeeds: acknowledged, and logged behind whatever tail there is. */
  lemma DefineOk(run: seq<World>, t: Tid, op: Op) returns (more: seq<World>)
    requires run != [] && IsRun(run) && Quiet(Last(run)) && t !in Last(run).threads && Define(Last(run).live, op).Success?
    ensures run <= more && more != [] && IsRun(more) && Quiet(Last(more))
    ensures var w, v := Last(run), Last(more);
            && v.live == Define(w.live, op).value && v.base == w.base && v.acked == w.acked + {op} && v.missing == w.missing
            && v.log == Logged(w, op, Whole).log && v.torn == Logged(w, op, Whole).torn
            && v.threads.Keys == w.threads.Keys + {t}
  {
    var w := Last(run);
    var mid := ReachLogging(run, t, op);
    var w1 := Last(mid);
    assert [op][1..] == [];
    var w2 := Moved(Logged(w1, op, Whole), t, Appending([]));
    hide IsRun, Define;
    assert AppendingStep(w1, w2, t, [op]);
    ExtendByThread(mid, w2, t);
    more := ReachAcked(mid + [w2], t);
  }

  /** A whole definition whose append writes nothing and fails: live, reported as an error, and not in the files. */
  lemma DefineUnlogged(run: seq<World>, t: Tid, op: Op) returns (more: seq<World>)
    requires run != [] && IsRun(run) && Quiet(Last(run)) && t !in Last(run).threads && Define(Last(run).live, op).Success?
    ensures run <= more && more != [] && IsRun(more) && Quiet(Last(more))
    ensures var w, v := Last(run), Last(more);
            && v.live == Define(w.live, op).value && v.base == w.base && v.acked == w.acked
            && v.log == w.log && v.torn == w.torn && v.threads.Keys == w.threads.Keys + {t}
  {
    var mid := ReachLogging(run, t, op);
    var w1 := Last(mid);
    var w2 := Moved(w1, t, Unlocking).(missing := w1.missing + (set o | o in Rest(w1, [op], Nothing)), faulted := true);
    hide IsRun, Define;
    assert FailedAppend(w1, w2, t, [op], Nothing);
    assert AppendingStep(w1, w2, t, [op]);
    ExtendByThread(mid, w2, t);
    more := ReachDone(mid + [w2], t);
  }

  /** A server just started from this base, with no log beside it. */
  ghost function Started(base: Catalog): World
  {
    World(true, None, None, base, base, [], false, map[], {}, {}, !EndpointsDefined(base))
  }

  lemma StartedRun(base: Catalog)
    requires KindsDisjoint(base)
    ensures IsRun([Started(base)]) && Quiet(Started(base)) && Recovered(Started(base)) == Some(base)
  {
    assert Ops([]) == [] && Replay(base, []) == Success(base);
  }

  /** An edge model that was acknowledged and can be recovered, but without an endpoint. */
  ghost predicate EndsHeadless(run: seq<World>, e: RelModel)
  {
    && IsRun(run) && RegisterRel(e) in Last(run).acked
    && Recovered(Last(run)).Some? && Present(Recovered(Last(run)).value, RegisterRel(e))
    && !EndpointsDefined(Recovered(Last(run)).value)
  }

  /**
   A failed append does lose an endpoint: for any node model and any edge model on it there is a
   run in which the node's append fails, the edge model defined after it is logged and
   acknowledged, and recovery has the edge model alone.
   */
  lemma FailedAppendLosesEndpoint(a: NodeModel, e: RelModel)
    requires e.from == a.name && e.to == a.name && e.name != a.name
    ensures exists run :: EndsHeadless(run, e)
  {
    StartedRun(EMPTY);
    var first := DefineUnlogged([Started(EMPTY)], 0, RegisterNode(a));
    var run := DefineOk(first, 1, RegisterRel(e));
    var w := Last(run);
    assert w.log == [Record(RegisterRel(e))] && w.base == EMPTY;
    OneRecord(RegisterRel(e));
    assert EndsHeadless(run, e) by {
      assert e.name in Recovered(w).value.rels;
    }
  }

  lemma OneRecord(op: Op)
    ensures Ops([Record(op)]) == [op] && Readable([Record(op)]) && Replay(EMPTY, [op]) == ReplayEntry(EMPTY, op)
  {
    assert [Record(op)][..0] == [] && [op][..0] == [];
  }

  /** Acknowledged, and yet the files cannot be read. */
  ghost predicate EndsUnreadable(run: seq<World>, op: Op)
  {
    IsRun(run) && op in Last(run).acked && Recovered(Last(run)).None?
  }

  /**
   A torn tail does lose acknowledged definitions: for any two node definitions there is a run in
   which the process dies inside the first one's append and starts again, the second is
   acknowledged, and from then on the files cannot be read.
   */
  lemma TornTailLosesAcked(a: NodeModel, b: NodeModel)
    ensures exists run :: EndsUnreadable(run, RegisterNode(b))
  {
    StartedRun(EMPTY);
    var logging := ReachLogging([Started(EMPTY)], 0, RegisterNode(a));
    var w1 := Last(logging);
    var w2 := Down(Logged(w1, RegisterNode(a), Part));
    assert Unappended(w1) == [RegisterNode(a)];
    assert w2 == Down(Logged(w1, Unappended(w1)[0], Part));
    assert Die(w1, w2);
    Extend(logging, w2);
    var w3 := w2.(up := true, live := EMPTY, missing := {});
    assert w2.log == [] && w2.base == EMPTY && Ops([]) == [] && Replay(EMPTY, []) == Success(EMPTY);
    assert Restart(w2, w3);
    Extend(logging + [w2], w3);
    var run := DefineOk(logging + [w2] + [w3], 1, RegisterNode(b));
    assert Last(run).log == [Unreadable];
    assert EndsUnreadable(run, RegisterNode(b));
  }
}
