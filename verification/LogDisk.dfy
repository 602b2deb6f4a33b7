/**
 The append log on a disk that loses what was not synced when the machine stops
 (src/runtime/durability.rs). An append syncs the log's bytes, but the directory only if it
 created the log: `MachineCrashExactly` says when that is enough for what was acknowledged.
 */
module LogDisk {
  import opened Prelude
  import F = FileReplace
  import D = DurableLog

  type Bytes = F.Bytes

  datatype Pc =
    | Idle
    | Writing(ino: nat, existed: bool, rest: Bytes)   // log open, these bytes still to be written
    | Linking(ino: nat)                               // bytes synced, directory still to be
    | Answering(ino: nat)                             // about to return Ok
    | Removed                                         // log removed, directory still to be synced

  /**
   `kept` says how many of a file's first bytes are on the medium. `acked` is what the log held
   when an append last returned Ok, as long as the log is neither removed nor lost in a crash.
   */
  datatype State = State(disk: F.Disk, kept: map<nat, nat>, acked: Bytes, pc: Pc)

  // ------------------------------------------------------------------- steps

  /** `OpenOptions` with create and append. */
  ghost predicate OpenStep(log: F.FileName, s: State, s': State, line: Bytes)
  {
    && s.pc == Idle
    && var entry := F.Entry(s.disk, log);
       if entry.Some? then s' == s.(pc := Writing(entry.value, true, line))
       else s' == s.(disk := F.Create(s.disk, log), kept := s.kept[s.disk.next := 0], pc := Writing(s.disk.next, false, line))
  }

  /** Some of the bytes reach the end of the file. */
  ghost predicate WriteStep(s: State, s': State, n: nat)
  {
    && s.pc.Writing? && n <= |s.pc.rest| && s.pc.ino in s.disk.data
    && s' == s.(disk := F.Write(s.disk, s.pc.ino, s.disk.data[s.pc.ino] + s.pc.rest[..n]), pc := s.pc.(rest := s.pc.rest[n..]))
  }

  ghost predicate SyncStep(s: State, s': State)
  {
    && s.pc.Writing? && s.pc.rest == [] && s.pc.ino in s.disk.data
    && s' == s.(disk := F.SyncFile(s.disk, s.pc.ino), kept := s.kept[s.pc.ino := |s.disk.data[s.pc.ino]|],
                pc := if s.pc.existed then Answering(s.pc.ino) else Linking(s.pc.ino))
  }

  ghost predicate AnswerStep(s: State, s': State)
  {
    && s.pc.Answering? && s.pc.ino in s.disk.data
    && s' == s.(acked := s.disk.data[s.pc.ino], pc := Idle)
  }

  /** `clear_log`, once the base holds everything. */
  ghost predicate RemoveStep(log: F.FileName, s: State, s': State)
  {
    s.pc == Idle && F.Entry(s.disk, log).Some? && s' == s.(disk := F.Remove(s.disk, log), acked := [], pc := Removed)
  }

  /** The directory is synced: by the append that created the log, after removing it, or for a new base. */
  ghost predicate DirSyncStep(s: State, s': State)
  {
    && (s.pc.Linking? || s.pc.Removed? || s.pc.Idle?)
    && s' == s.(disk := F.SyncDir(s.disk), pc := if s.pc.Linking? then Answering(s.pc.ino) else Idle)
  }

  /** An error, or the death of the process. */
  ghost predicate FailStep(s: State, s': State)
  {
    s' == s.(pc := Idle)
  }

  /**
   What the machine may leave of the log: one of the entries it may have, with the bytes on the
   medium and perhaps some of those after them.
   */
  ghost predicate Crash(log: F.FileName, s: State, after: F.Disk)
  {
    && after.pending == map[] && after.next >= s.disk.next
    && var entry := F.Entry(after, log);
       && entry in F.Leaves(s.disk, log)
       && (entry.Some? ==>
             && entry.value in s.disk.data && entry.value in s.kept && entry.value in after.data
             && after.data[entry.value] <= s.disk.data[entry.value] && s.kept[entry.value] <= |after.data[entry.value]|)
  }

  /** The log's content begins with these bytes. */
  predicate Holds(log: F.FileName, d: F.Disk, bytes: Bytes)
  {
    bytes == [] || (F.Contents(d, log).Some? && bytes <= F.Contents(d, log).value)
  }

  ghost predicate CrashStep(log: F.FileName, s: State, s': State)
  {
    && Crash(log, s, s'.disk)
    && s'.kept == (if F.Entry(s'.disk, log).Some? then
                     s.kept[F.Entry(s'.disk, log).value := |s'.disk.data[F.Entry(s'.disk, log).value]|]
                   else s.kept)
    && s'.acked == (if Holds(log, s'.disk, s.acked) then s.acked else [])
    && s'.pc == Idle
  }

  /** Steps that concern the bytes and the answer. */
  ghost predicate ByteStep(s: State, s': State)
  {
    (exists n :: WriteStep(s, s', n)) || SyncStep(s, s') || AnswerStep(s, s') || FailStep(s, s')
  }

  ghost predicate Next(log: F.FileName, s: State, s': State)
  {
    || (exists line :: OpenStep(log, s, s', line))
    || ByteStep(s, s')
    || RemoveStep(log, s, s')
    || DirSyncStep(s, s')
    || CrashStep(log, s, s')
  }

  /** No log, and the directory as it is on the medium. */
  predicate Init(log: F.FileName, s: State)
  {
    s.disk.pending == map[] && log !in s.disk.dir && s.acked == [] && s.pc == Idle
  }

  ghost predicate IsRun(log: F.FileName, run: seq<State>)
  {
    run != [] && Init(log, run[0]) && forall i :: 0 <= i < |run| - 1 ==> Next(log, run[i], run[i + 1])
  }

  // --------------------------------------------------------------- invariant

  /** Every entry a crash may leave is a file, with what is kept of it. */
  ghost predicate EntriesOk(log: F.FileName, s: State)
  {
    forall e: Option<nat> :: e in F.Leaves(s.disk, log) && e.Some? ==>
      e.value in s.disk.data && e.value in s.kept && s.kept[e.value] <= |s.disk.data[e.value]| && e.value < s.disk.next
  }

  ghost predicate PcOk(log: F.FileName, s: State)
  {
    match s.pc
    case Idle => true
    case Writing(ino, _, _) => F.Entry(s.disk, log) == Some(ino)
    case Linking(ino) => F.Entry(s.disk, log) == Some(ino) && ino in s.disk.data && ino in s.kept && s.kept[ino] == |s.disk.data[ino]|
    case Answering(ino) => F.Entry(s.disk, log) == Some(ino) && ino in s.disk.data && ino in s.kept && s.kept[ino] == |s.disk.data[ino]|
    case Removed => F.Entry(s.disk, log).None?
  }

  /** What was acknowledged is in the log, on the medium. */
  ghost predicate AckedOk(log: F.FileName, s: State)
  {
    s.acked != [] ==>
      && F.Entry(s.disk, log).Some?
      && var ino := F.Entry(s.disk, log).value;
         ino in s.disk.data && ino in s.kept && s.acked <= s.disk.data[ino] && |s.acked| <= s.kept[ino]
  }

  ghost predicate Inv(log: F.FileName, s: State)
  {
    && EntriesOk(log, s) && PcOk(log, s) && AckedOk(log, s)
    && (F.Entry(s.disk, log).Some? && log in s.disk.pending ==> None in F.Leaves(s.disk, log))
  }

  lemma OpenKeepsInv(log: F.FileName, s: State, s': State, line: Bytes)
    requires Inv(log, s) && OpenStep(log, s, s', line)
    ensures Inv(log, s')
  {
  }

  lemma WriteKeepsInv(log: F.FileName, s: State, s': State, n: nat)
    requires Inv(log, s) && WriteStep(s, s', n)
    ensures Inv(log, s')
  {
    assert F.Leaves(s'.disk, log) == F.Leaves(s.disk, log);
    hide F.Leaves;
  }

  lemma SyncKeepsInv(log: F.FileName, s: State, s': State)
    requires Inv(log, s) && SyncStep(s, s')
    ensures Inv(log, s')
  {
    assert F.Leaves(s'.disk, log) == F.Leaves(s.disk, log);
    hide F.Leaves;
  }

  lemma ByteKeepsInv(log: F.FileName, s: State, s': State)
    requires Inv(log, s) && ByteStep(s, s')
    ensures Inv(log, s')
  {
    if n :| WriteStep(s, s', n) {
      WriteKeepsInv(log, s, s', n);
    } else if SyncStep(s, s') {
      SyncKeepsInv(log, s, s');
    } else {
      hide WriteStep, SyncStep, F.Leaves;
    }
  }

  lemma DirKeepsInv(log: F.FileName, s: State, s': State)
    requires Inv(log, s) && (RemoveStep(log, s, s') || DirSyncStep(s, s'))
    ensures Inv(log, s')
  {
  }

  lemma CrashKeepsInv(log: F.FileName, s: State, s': State)
    requires Inv(log, s) && CrashStep(log, s, s')
    ensures Inv(log, s')
  {
    assert F.Leaves(s'.disk, log) == {F.Entry(s'.disk, log)};
  }

  lemma {:induction false} RunKeepsInv(log: F.FileName, run: seq<State>, i: nat)
    requires IsRun(log, run) && i < |run|
    ensures Inv(log, run[i])
  {
    hide Inv, ByteStep, RemoveStep, DirSyncStep, CrashStep, OpenStep;
    if i == 0 {
      InitInv(log, run[0]);
    } else {
      RunKeepsInv(log, run, i - 1);
      var s, s' := run[i - 1], run[i];
      assert Next(log, s, s');
      if line :| OpenStep(log, s, s', line) {
        OpenKeepsInv(log, s, s', line);
      } else if ByteStep(s, s') {
        ByteKeepsInv(log, s, s');
      } else if CrashStep(log, s, s') {
        CrashKeepsInv(log, s, s');
      } else {
        DirKeepsInv(log, s, s');
      }
    }
  }

  lemma InitInv(log: F.FileName, s: State)
    requires Init(log, s)
    ensures Inv(log, s)
  {
  }

  // ------------------------------------------------------- machine crashes

  /** This step made a new log. */
  ghost predicate Creates(log: F.FileName, s: State, s': State)
  {
    F.Entry(s.disk, log).None? && s'.pc.Writing?
  }

  /** This step left the directory as it is on the medium. */
  ghost predicate Settles(log: F.FileName, s: State, s': State)
  {
    DirSyncStep(s, s') || CrashStep(log, s, s')
  }

  ghost predicate UnlinkedAt(log: F.FileName, run: seq<State>, k: nat, j: nat)
    requires k < j < |run|
  {
    Creates(log, run[k], run[k + 1]) && forall m :: k < m < j ==> !Settles(log, run[m], run[m + 1])
  }

  /** The log was created, and the directory has not been synced since. */
  ghost predicate Unlinked(log: F.FileName, run: seq<State>, j: nat)
    requires j < |run|
  {
    exists k: nat :: k < j && UnlinkedAt(log, run, k, j)
  }

  /** How one step changes the entry and what a crash may make of it. */
  lemma EntryStep(log: F.FileName, s: State, s': State)
    requires Inv(log, s) && Next(log, s, s') && F.Entry(s'.disk, log).Some?
    ensures Settles(log, s, s') ==> log !in s'.disk.pending && !Creates(log, s, s')
    ensures !Settles(log, s, s') ==>
              if Creates(log, s, s') then log in s'.disk.pending
              else F.Entry(s.disk, log).Some? && (log in s'.disk.pending <==> log in s.disk.pending)
  {
  }

  lemma {:induction false} PendingExactly(log: F.FileName, run: seq<State>, j: nat)
    requires IsRun(log, run) && j < |run| && F.Entry(run[j].disk, log).Some?
    ensures log in run[j].disk.pending <==> Unlinked(log, run, j)
  {
    hide Inv, Next, Settles, Creates;
    if j > 0 {
      RunKeepsInv(log, run, j - 1);
      var s, s' := run[j - 1], run[j];
      assert Next(log, s, s');
      EntryStep(log, s, s');
      if Creates(log, s, s') {
        assert UnlinkedAt(log, run, j - 1, j);
      } else if !Settles(log, s, s') {
        PendingExactly(log, run, j - 1);
        if Unlinked(log, run, j - 1) {
          var k: nat :| k < j - 1 && UnlinkedAt(log, run, k, j - 1);
          assert UnlinkedAt(log, run, k, j);
        }
        if Unlinked(log, run, j) {
          var k: nat :| k < j && UnlinkedAt(log, run, k, j);
          assert k != j - 1;
          assert UnlinkedAt(log, run, k, j - 1);
        }
      }
    }
  }

  /**
   Every crash of the machine leaves the log with all that was acknowledged, exactly as long as
   nothing was, or the directory was synced since the log was created.
   */
  lemma MachineCrashExactly(log: F.FileName, run: seq<State>, j: nat)
    requires IsRun(log, run) && j < |run|
    ensures (forall after :: Crash(log, run[j], after) ==> Holds(log, after, run[j].acked))
            <==> run[j].acked == [] || !Unlinked(log, run, j)
  {
    hide IsRun, Unlinked;
    var s := run[j];
    RunKeepsInv(log, run, j);
    if s.acked != [] {
      PendingExactly(log, run, j);
      if log in s.disk.pending {
        LostAltogether(log, s);
      } else {
        forall after | Crash(log, s, after)
          ensures Holds(log, after, s.acked)
        {
          KeptWhole(log, s, after);
        }
      }
    }
  }

  lemma LostAltogether(log: F.FileName, s: State)
    requires Inv(log, s) && s.acked != [] && log in s.disk.pending
    ensures exists after :: Crash(log, s, after) && !Holds(log, after, s.acked)
  {
    var after := s.disk.(dir := s.disk.dir - {log}, pending := map[]);
    assert F.Entry(after, log) == None;
    assert Crash(log, s, after) && !Holds(log, after, s.acked);
  }

  lemma KeptWhole(log: F.FileName, s: State, after: F.Disk)
    requires Inv(log, s) && log !in s.disk.pending && Crash(log, s, after)
    ensures Holds(log, after, s.acked)
  {
    if s.acked != [] {
      var ino := F.Entry(s.disk, log).value;
      var all, left := s.disk.data[ino], after.data[ino];
      assert F.Entry(after, log) == Some(ino);
      assert s.acked == all[..|s.acked|] == left[..|s.acked|];
    }
  }

  /** So a recovery after such a crash begins with the records acknowledged. */
  lemma AckedRecordsRead<T(!new)>(encode: T -> Bytes, decode: Bytes -> Option<T>, log: F.FileName, run: seq<State>, j: nat, after: F.Disk, ops: seq<T>)
    requires D.Codec(encode, decode)
    requires IsRun(log, run) && j < |run| && !Unlinked(log, run, j) && Crash(log, run[j], after)
    requires ops != [] && run[j].acked == D.EncodeLog(encode, ops)
    ensures F.Contents(after, log).Some? && run[j].acked <= F.Contents(after, log).value
    ensures var content := F.Contents(after, log).value;
            D.ReadLog(decode, content) == D.Prepend(ops, D.ReadLog(decode, content[|run[j].acked|..]))
  {
    hide IsRun, Unlinked, Crash, D.ReadLog;
    assert run[j].acked != [];
    MachineCrashExactly(log, run, j);
    assert Holds(log, after, run[j].acked);
    var content := F.Contents(after, log).value;
    assert content == run[j].acked + content[|run[j].acked|..];
    D.ReadAfterRecords(encode, decode, ops, content[|run[j].acked|..]);
  }

  // ------------------------------------------------------------- a run that fails

  function Last(run: seq<State>): State
    requires run != []
  {
    run[|run| - 1]
  }

  lemma Extend(log: F.FileName, run: seq<State>, s: State)
    requires run != [] && IsRun(log, run) && Next(log, Last(run), s)
    ensures IsRun(log, run + [s])
  {
    hide Next, Init;
    var more := run + [s];
    forall i | 0 <= i < |more| - 1
      ensures Next(log, more[i], more[i + 1])
    {
      if i < |run| - 1 {
        assert more[i] == run[i] && more[i + 1] == run[i + 1];
      }
    }
  }

  lemma ExtendByBytes(log: F.FileName, run: seq<State>, s: State)
    requires run != [] && IsRun(log, run) && ByteStep(Last(run), s)
    ensures IsRun(log, run + [s])
  {
    hide ByteStep, IsRun;
    assert Next(log, Last(run), s);
    Extend(log, run, s);
  }

  /** Acknowledged, and yet this crash loses it. */
  ghost predicate EndsLost(log: F.FileName, run: seq<State>, after: F.Disk)
  {
    run != [] && IsRun(log, run) && Crash(log, Last(run), after) && !Holds(log, after, Last(run).acked)
  }

  /** An append on an open log, as far as its bytes being on the medium. */
  lemma ReachSynced(log: F.FileName, run: seq<State>) returns (more: seq<State>)
    requires run != [] && IsRun(log, run) && Last(run).pc.Writing?
    ensures var s, ino := Last(run), Last(run).pc.ino;
            && more != [] && IsRun(log, more) && ino in s.disk.data
            && var bytes := s.disk.data[ino] + s.pc.rest;
               Last(more) == s.(disk := F.SyncFile(F.Write(s.disk, ino, bytes), ino), kept := s.kept[ino := |bytes|],
                                pc := if s.pc.existed then Answering(ino) else Linking(ino))
  {
    var s := Last(run);
    RunKeepsInv(log, run, |run| - 1);
    hide IsRun;
    var line := s.pc.rest;
    assert s.pc.ino in s.disk.data;
    var w1 := s.(disk := F.Write(s.disk, s.pc.ino, s.disk.data[s.pc.ino] + line[..|line|]), pc := s.pc.(rest := []));
    assert line[|line|..] == [];
    assert WriteStep(s, w1, |line|);
    ExtendByBytes(log, run, w1);
    assert line[..|line|] == line;
    var w2 := w1.(disk := F.SyncFile(w1.disk, s.pc.ino), kept := w1.kept[s.pc.ino := |w1.disk.data[s.pc.ino]|],
                  pc := if s.pc.existed then Answering(s.pc.ino) else Linking(s.pc.ino));
    assert SyncStep(w1, w2);
    ExtendByBytes(log, run + [w1], w2);
    more := run + [w1] + [w2];
  }

  const BLANK := State(F.Disk(map[], map[], map[], {}, 0), map[], [], Idle)

  /**
   A run that loses an acknowledged record: the append that creates the log fails to sync the
   directory, the next append returns Ok without trying to, and the machine stops.
   */
  lemma UnlinkedLogLosesAcked(log: F.FileName, line: Bytes)
    requires line != []
    ensures exists run, after :: EndsLost(log, run, after)
  {
    assert IsRun(log, [BLANK]);
    var s1 := BLANK.(disk := F.Create(BLANK.disk, log), kept := map[0 := 0], pc := Writing(0, false, line));
    assert OpenStep(log, BLANK, s1, line);
    Extend(log, [BLANK], s1);
    var run := ReachSynced(log, [BLANK] + [s1]);
    var s2 := Last(run).(pc := Idle);
    assert FailStep(Last(run), s2);
    ExtendByBytes(log, run, s2);
    var s3 := s2.(pc := Writing(0, true, line));
    assert OpenStep(log, s2, s3, line);
    Extend(log, run + [s2], s3);
    run := ReachSynced(log, run + [s2] + [s3]);
    var s4 := Last(run).(acked := Last(run).disk.data[0], pc := Idle);
    assert AnswerStep(Last(run), s4);
    ExtendByBytes(log, run, s4);
    run := run + [s4];
    RunKeepsInv(log, run, |run| - 1);
    assert log in s4.disk.pending;
    LostAltogether(log, s4);
    var after :| Crash(log, s4, after) && !Holds(log, after, s4.acked);
    assert EndsLost(log, run, after);
  }

  // ---------------------------------------------------------------- the code

  class LogFile {
    const log: F.FileName
    var disk: F.Disk
    ghost var run: seq<State>

    ghost predicate Valid()
      reads this
    {
      run != [] && IsRun(log, run) && Last(run).disk == disk
    }

    constructor (log: F.FileName, start: State)
      requires Init(log, start)
      ensures Valid() && this.log == log && run == [start]
    {
      this.log, disk, run := log, start.disk, [start];
    }

    /** One system call. */
    ghost method Advance(s: State)
      requires Valid() && Next(log, Last(run), s)
      modifies this`run
      ensures run == old(run) + [s] && IsRun(log, run)
    {
      hide Next, IsRun;
      Extend(log, run, s);
      run := run + [s];
    }

    ghost method Fail()
      requires Valid()
      modifies this`run
      ensures Valid() && Last(run) == old(Last(run)).(pc := Idle) && old(run) <= run
    {
      assert FailStep(Last(run), Last(run).(pc := Idle));
      assert ByteStep(Last(run), Last(run).(pc := Idle));
      Advance(Last(run).(pc := Idle));
    }

    /** The log is opened, and created if need be. */
    method Open(bytes: Bytes) returns (ok: bool, existed: bool)
      requires Valid() && Last(run).pc == Idle
      modifies this
      ensures Valid() && old(run) <= run && Last(run).acked == old(Last(run).acked)
      ensures !ok ==> disk == old(disk) && Last(run).pc == Idle
      ensures ok ==>
                && F.Contents(disk, log) == Some(Before(old(disk), log)) && log in disk.dir
                && Last(run).pc == Writing(disk.dir[log], existed, bytes) && existed == (log in old(disk).dir)
                && (log in old(disk).dir ==> disk == old(disk))
    {
      var fails: bool := *;
      existed := log in disk.dir;
      if fails {
        return false, existed;
      }
      hide IsRun, Next;
      ghost var s := Last(run);
      RunKeepsInv(log, run, |run| - 1);
      ghost var s1 := if log in disk.dir then s.(pc := Writing(disk.dir[log], true, bytes))
        else s.(disk := F.Create(disk, log), kept := s.kept[disk.next := 0], pc := Writing(disk.next, false, bytes));
      assert OpenStep(log, s, s1, bytes);
      OpenIsNext(log, s, s1, bytes);
      Advance(s1);
      if !existed {
        disk := F.Create(disk, log);
      }
      ok := true;
    }

    /** One `write`: some of the bytes that are left. */
    method WritePiece(ghost before: Bytes, piece: Bytes)
      requires Valid() && Last(run).pc.Writing? && piece <= Last(run).pc.rest && F.Contents(disk, log) == Some(before)
      modifies this
      ensures Valid() && old(run) <= run && Last(run).acked == old(Last(run).acked)
      ensures disk.dir == old(disk).dir && disk.pending == old(disk).pending && F.Contents(disk, log) == Some(before + piece)
      ensures Last(run).pc == old(Last(run).pc).(rest := old(Last(run).pc.rest)[|piece|..])
    {
      hide IsRun, Next;
      RunKeepsInv(log, run, |run| - 1);
      var ino := disk.dir[log];
      ghost var s := Last(run);
      ghost var s' := s.(disk := F.Write(disk, ino, disk.data[ino] + piece), pc := s.pc.(rest := s.pc.rest[|piece|..]));
      assert s.pc.rest[..|piece|] == piece;
      assert WriteStep(s, s', |piece|);
      ByteIsNext(log, s, s');
      Advance(s');
      disk := F.Write(disk, ino, disk.data[ino] + piece);
    }

    /** `write_all`, twice: the record and its newline reach the file piece by piece, each of which may fail. */
    method WriteAll(ghost before: Bytes, bytes: Bytes) returns (ok: bool)
      requires Valid() && Last(run).pc.Writing? && Last(run).pc.rest == bytes && F.Contents(disk, log) == Some(before)
      modifies this
      ensures Valid() && old(run) <= run && Last(run).acked == old(Last(run).acked)
      ensures disk.dir == old(disk).dir && disk.pending == old(disk).pending
      ensures ok ==> F.Contents(disk, log) == Some(before + bytes) && Last(run).pc == old(Last(run).pc).(rest := [])
      ensures !ok ==> Last(run).pc == Idle && exists n: nat :: Partly(before, bytes, n, F.Contents(disk, log))
    {
      hide IsRun, F.Contents;
      ghost var pc := Last(run).pc;
      var done := 0;
      assert before + bytes[..0] == before && bytes[0..] == bytes;
      while done < |bytes|
        invariant done <= |bytes| && Valid() && old(run) <= run && Last(run).acked == old(Last(run).acked)
        invariant disk.dir == old(disk).dir && disk.pending == old(disk).pending
        invariant F.Contents(disk, log) == Some(before + bytes[..done]) && Last(run).pc == pc.(rest := bytes[done..])
      {
        var fails: bool, wish: nat := *, *;
        if fails {
          Fail();
          assert Partly(before, bytes, done, F.Contents(disk, log));
          return false;
        }
        var more := if 0 < wish <= |bytes| - done then wish else |bytes| - done;
        var piece := bytes[done..done + more];
        assert piece <= bytes[done..] && bytes[done..][more..] == bytes[done + more..];
        assert before + bytes[..done] + piece == before + bytes[..done + more];
        WritePiece(before + bytes[..done], piece);
        done := done + more;
      }
      assert bytes[..|bytes|] == bytes && bytes[|bytes|..] == [];
      ok := true;
    }

    /** `sync_all`, and for a log just created `sync_parent_dir`; then the answer. */
    method SyncAndAnswer(existed: bool, ghost bytes: Bytes) returns (ok: bool)
      requires Valid() && Last(run).pc.Writing? && Last(run).pc.rest == [] && Last(run).pc.existed == existed
      requires F.Contents(disk, log) == Some(bytes)
      modifies this
      ensures Valid() && old(run) <= run && Last(run).pc == Idle && F.Contents(disk, log) == Some(bytes)
      ensures Last(run).acked == if ok then bytes else old(Last(run).acked)
      ensures ok && (!existed || log !in old(disk).pending) ==>
                forall after :: Crash(log, Last(run), after) ==> F.Contents(after, log) == Some(bytes)
    {
      hide IsRun, Next, Crash;
      RunKeepsInv(log, run, |run| - 1);
      var ino := disk.dir[log];
      ghost var s := Last(run);
      var fails: bool := *;
      if fails {
        Fail();
        return false;
      }
      ghost var s1 := s.(disk := F.SyncFile(disk, ino), kept := s.kept[ino := |disk.data[ino]|],
                         pc := if existed then Answering(ino) else Linking(ino));
      assert SyncStep(s, s1);
      ByteIsNext(log, s, s1);
      Advance(s1);
      disk := F.SyncFile(disk, ino);
      if !existed {
        fails := *;
        if fails {
          Fail();
          return false;
        }
        ghost var s2 := s1.(disk := F.SyncDir(disk), pc := Answering(ino));
        DirSyncIsNext(log, s1, s2);
        Advance(s2);
        disk := F.SyncDir(disk);
      }
      ghost var s3 := Last(run);
      ghost var answered := s3.(acked := disk.data[ino], pc := Idle);
      assert AnswerStep(s3, answered);
      ByteIsNext(log, s3, answered);
      Advance(answered);
      AllKept(log, answered, ino);
      ok := true;
    }

    /**
     `append_operation`. Ok means that the record and its newline are at the end of the log, on the
     medium; no crash takes them away if this call created the log, or if the directory was synced
     since another did. An error leaves the log without the record, with part of it, or with all of it.
     */
    method AppendOperation(line: Bytes) returns (ok: bool)
      requires Valid() && Last(run).pc == Idle
      modifies this
      ensures Valid() && old(run) <= run && Last(run).pc == Idle
      ensures ok ==> F.Contents(disk, log) == Some(Before(old(disk), log) + line + [D.NEWLINE])
      ensures Last(run).acked == if ok then Before(old(disk), log) + line + [D.NEWLINE] else old(Last(run).acked)
      ensures ok && (log !in old(disk).dir || log !in old(disk).pending) ==>
                forall after :: Crash(log, Last(run), after) ==>
                                  F.Contents(after, log) == Some(Before(old(disk), log) + line + [D.NEWLINE])
      ensures !ok ==> disk == old(disk) || exists n: nat :: Partly(Before(old(disk), log), line + [D.NEWLINE], n, F.Contents(disk, log))
    {
      hide IsRun, Next, Crash;
      ghost var before := Before(disk, log);
      var bytes := line + [D.NEWLINE];
      var existed;
      ok, existed := Open(bytes);
      if !ok {
        return;
      }
      ok := WriteAll(before, bytes);
      if !ok {
        return;
      }
      assert before + bytes == before + line + [D.NEWLINE];
      ok := SyncAndAnswer(existed, before + bytes);
      assert bytes[..|bytes|] == bytes;
      assert Partly(before, bytes, |bytes|, F.Contents(disk, log));
    }

    /** `clear_log`, called once the base holds everything; a log that is not there is fine. */
    method ClearLog() returns (ok: bool)
      requires Valid() && Last(run).pc == Idle
      modifies this
      ensures Valid() && old(run) <= run && Last(run).pc == Idle
      ensures ok ==> log !in disk.dir
      ensures ok && log in old(disk).dir ==> forall after :: Crash(log, Last(run), after) ==> log !in after.dir
      ensures !ok ==> disk == old(disk) || log !in disk.dir
    {
      hide IsRun, Next;
      if log !in disk.dir {
        return true;
      }
      var fails: bool := *;
      if fails {
        return false;
      }
      ghost var s := Last(run);
      ghost var s1 := s.(disk := F.Remove(disk, log), acked := [], pc := Removed);
      RemoveIsNext(log, s, s1);
      Advance(s1);
      disk := F.Remove(disk, log);
      fails := *;
      if fails {
        Fail();
        return false;
      }
      ghost var s2 := s1.(disk := F.SyncDir(disk), pc := Idle);
      DirSyncIsNext(log, s1, s2);
      Advance(s2);
      disk := F.SyncDir(disk);
      ok := true;
    }
  }

  /** What the log holds, a log that is not there holding nothing. */
  function Before(d: F.Disk, log: F.FileName): Bytes
  {
    if F.Contents(d, log).Some? then F.Contents(d, log).value else []
  }

  ghost predicate Partly(before: Bytes, bytes: Bytes, n: nat, content: Option<Bytes>)
  {
    n <= |bytes| && content == Some(before + bytes[..n])
  }

  lemma OpenIsNext(log: F.FileName, s: State, s': State, line: Bytes)
    requires OpenStep(log, s, s', line)
    ensures Next(log, s, s')
  {
  }

  lemma ByteIsNext(log: F.FileName, s: State, s': State)
    requires (exists n :: WriteStep(s, s', n)) || SyncStep(s, s') || AnswerStep(s, s')
    ensures Next(log, s, s')
  {
  }

  lemma DirSyncIsNext(log: F.FileName, s: State, s': State)
    requires DirSyncStep(s, s')
    ensures Next(log, s, s')
  {
  }

  lemma RemoveIsNext(log: F.FileName, s: State, s': State)
    requires RemoveStep(log, s, s')
    ensures Next(log, s, s')
  {
  }

  /** With its entry settled and all its bytes on the medium, the log is found as it was. */
  lemma AllKept(log: F.FileName, s: State, ino: nat)
    requires F.Entry(s.disk, log) == Some(ino) && ino in s.disk.data && ino in s.kept && s.kept[ino] == |s.disk.data[ino]|
    ensures log !in s.disk.pending ==> forall after :: Crash(log, s, after) ==> F.Contents(after, log) == Some(s.disk.data[ino])
  {
    forall after | Crash(log, s, after) && log !in s.disk.pending
      ensures F.Contents(after, log) == Some(s.disk.data[ino])
    {
      var all, left := s.disk.data[ino], after.data[ino];
      assert F.Entry(after, log) == Some(ino);
      assert left == all[..|left|] == all;
    }
  }
}
