/**
 The two write functions of src/fsutil.rs as code over a disk. Each system call is one step of
 the machine in `FileReplace`, so every guarantee proved there about all runs holds of the code,
 and the contracts add what one call promises its caller. System calls fail at will.
 */
module FileStores {
  import opened Prelude
  import opened FileReplace

  datatype WriteError = OpenFailed | WriteFailed | SyncFailed | RenameFailed | DirSyncFailed

  /** Entry `e` is one a crash could already leave before the write, intact, or is the new bytes, durable. */
  ghost predicate OldOrNewEntry(d0: Disk, d: Disk, name: FileName, bytes: Bytes, e: Option<nat>)
  {
    || (e in Leaves(d0, name)
        && (e.Some? && e.value in d0.synced && e.value in d0.data ==>
              e.value in d.synced && e.value in d.data && d.data[e.value] == d0.data[e.value]))
    || (e.Some? && e.value in d.synced && e.value in d.data && d.data[e.value] == bytes)
  }

  ghost predicate OldOrNew(d0: Disk, d: Disk, name: FileName, bytes: Bytes)
  {
    forall e :: e in Leaves(d, name) ==> OldOrNewEntry(d0, d, name, bytes, e)
  }

  /** What the entries mean for the reader: after a crash the file holds all of the old bytes or all of the new. */
  lemma AllOldOrAllNew(d0: Disk, d: Disk, name: FileName, bytes: Bytes, after: Disk)
    requires OldOrNew(d0, d, name, bytes) && Crash(d, after)
    requires forall e :: e in Leaves(d0, name) ==> e.Some? && e.value in d0.synced && e.value in d0.data
    ensures Contents(after, name) == Some(bytes)
            || exists e :: e in Leaves(d0, name) && Contents(after, name) == Some(d0.data[e.value])
  {
    var e := Entry(after, name);
    assert OldOrNewEntry(d0, d, name, bytes, e);
  }

  lemma StepOldOrNew(d0: Disk, d: Disk, d': Disk, name: FileName, bytes: Bytes)
    requires OldOrNew(d0, d, name, bytes)
    requires Leaves(d', name) <= Leaves(d, name)
    requires forall e: Option<nat> :: e in Leaves(d, name) && e.Some? && e.value in d.synced && e.value in d.data ==>
               e.value in d'.synced && e.value in d'.data && d'.data[e.value] == d.data[e.value]
    ensures OldOrNew(d0, d', name, bytes)
  {
    hide Leaves;
    forall e | e in Leaves(d', name)
      ensures OldOrNewEntry(d0, d', name, bytes, e)
    {
      assert OldOrNewEntry(d0, d, name, bytes, e);
    }
  }

  class FileStore {
    const target: FileName
    var disk: Disk
    ghost var run: seq<State>

    ghost predicate Valid()
      reads this
    {
      IsRun(target, run) && Now().disk == disk
    }

    ghost function Now(): State
      reads this
      requires run != []
    {
      run[|run| - 1]
    }

    /** What every state since the call began may leave at `name`. */
    ghost predicate SinceOldOrNew(from: nat, d0: Disk, name: FileName, bytes: Bytes)
      reads this
    {
      forall i :: from <= i < |run| ==> OldOrNew(d0, run[i].disk, name, bytes)
    }

    constructor (target: FileName, start: State)
      requires Init(target, start)
      ensures Valid() && this.target == target && run == [start]
    {
      this.target, disk, run := target, start.disk, [start];
    }

    /** One system call: the disk becomes that of `s'`. */
    ghost method Advance(s': State)
      requires Valid() && Next(target, Now(), s')
      modifies this`run
      ensures run == old(run) + [s'] && IsRun(target, run)
    {
      run := run + [s'];
    }

    ghost method Fail()
      requires Valid()
      modifies this`run
      ensures Valid() && run == old(run) + [old(Now()).(pc := Idle)]
    {
      assert FailNext(Now(), Now().(pc := Idle));
      Advance(Now().(pc := Idle));
    }

    method OpenTemp(slot: Slot, bytes: Bytes, nonce: string) returns (ino: Option<nat>)
      requires Valid()
      requires Now().pc == if slot.Primary? then Idle else PrimaryDone
      requires slot.Backup? ==> Now().versions != [] && bytes == Now().versions[Newest(Now())]
      modifies this
      ensures Valid() && |run| == |old(run)| + 1 && old(run) <= run
      ensures ino.None? ==> disk == old(disk) && Now().pc == Idle
      ensures slot.Backup? ==> Now().versions == old(Now().versions)
      ensures ino.Some? ==>
                var temp := AtomicTempPath(SlotName(target, slot), nonce);
                && temp !in old(disk).dir && ino.value == old(disk).next && disk == Create(old(disk), temp)
                && Now().pc == Created(slot, temp, ino.value)
                && Now().versions != [] && Now().versions[Newest(Now())] == bytes
    {
      var temp := AtomicTempPath(SlotName(target, slot), nonce);
      var fails: bool := *;
      if fails || temp in disk.dir {
        Fail();
        return None;
      }
      ghost var s := Now();
      ghost var versions := if slot.Primary? then s.versions + [bytes] else s.versions;
      ghost var s' := State(Create(disk, temp), Created(slot, temp, disk.next), versions, s.version[disk.next := |versions| - 1]);
      assert BeginNext(target, s, s', slot, nonce, bytes);
      Advance(s');
      ino := Some(disk.next);
      disk := Create(disk, temp);
    }

    /** The disk holds what a prefix of the bytes left in the temporary file. */
    ghost predicate PartWritten(created: Disk, d: Disk, ino: nat)
    {
      exists sofar: Bytes :: d == Write(created, ino, sofar)
    }

    /** `write_all`: the bytes reach the file in pieces of any size, each of which may fail. */
    method WriteAll(ino: nat, bytes: Bytes) returns (ok: bool)
      requires Valid() && Now().pc.Created? && Now().pc.ino == ino
      requires Now().versions != [] && Now().versions[Newest(Now())] == bytes
      modifies this
      ensures Valid() && |old(run)| < |run| && old(run) <= run
      ensures disk.dir == old(disk).dir
      ensures forall i :: |old(run)| <= i < |run| ==> run[i].disk == old(disk) || PartWritten(old(disk), run[i].disk, ino)
      ensures ok ==> disk == Write(old(disk), ino, bytes)
                     && Now() == old(Now()).(disk := disk, pc := Written(old(Now().pc.slot), old(Now().pc.temp), ino))
      ensures !ok ==> Now().pc == Idle
      ensures Now().versions == old(Now().versions)
    {
      hide Init, SlotName, AtomicTempPath;
      ghost var s, d := Now(), disk;
      var done := 0;
      while done < |bytes|
        invariant done <= |bytes| && Valid() && |old(run)| <= |run| && old(run) <= run
        invariant disk == d || disk == Write(d, ino, bytes[..done])
        invariant Now() == s.(disk := disk)
        invariant forall i :: |old(run)| <= i < |run| ==> run[i].disk == d || PartWritten(d, run[i].disk, ino)
      {
        var fails: bool := *;
        if fails {
          Fail();
          return false;
        }
        var more: nat :| done < more <= |bytes|;
        ghost var s' := Now().(disk := Write(disk, ino, bytes[..more]));
        assert s'.disk == Write(d, ino, bytes[..more]);
        assert bytes[..more] <= s.versions[Newest(s)];
        assert WorkNext(target, Now(), s');
        Advance(s');
        disk := Write(disk, ino, bytes[..more]);
        done := more;
      }
      ghost var full := Now().(disk := Write(disk, ino, bytes), pc := Written(s.pc.slot, s.pc.temp, ino));
      assert full.disk == Write(d, ino, bytes);
      assert bytes <= s.versions[Newest(s)];
      assert WorkNext(target, Now(), full);
      Advance(full);
      disk := Write(disk, ino, bytes);
      return true;
    }

    /** `write_file_atomically` for the target or its backup. */
    method WriteFileAtomically(slot: Slot, bytes: Bytes, nonce: string) returns (r: Result<(), WriteError>)
      requires Valid()
      requires Now().pc == if slot.Primary? then Idle else PrimaryDone
      requires slot.Backup? ==> Now().versions != [] && bytes == Now().versions[Newest(Now())]
      modifies this
      ensures Valid() && old(run) <= run
      // at every step, so at every crash: the old entries or the new bytes
      ensures SinceOldOrNew(|old(run)|, old(disk), SlotName(target, slot), bytes)
      // Ok: the new bytes are in place and no crash can take them away
      ensures r.Success? ==> Contents(disk, SlotName(target, slot)) == Some(bytes)
      ensures r.Success? ==> forall after :: Crash(disk, after) ==> Contents(after, SlotName(target, slot)) == Some(bytes)
      ensures r.Success? ==> Now().pc == if slot.Primary? then PrimaryDone else Idle
      ensures r.Success? ==> Now().versions != [] && bytes == Now().versions[Newest(Now())]
      ensures r.Success? && slot.Backup? ==> PrimaryNewest(target, Now())
      ensures slot.Backup? ==> Now().versions == old(Now().versions)
      // Err: the visible file changed exactly when only the directory sync failed
      ensures r.Failure? ==> Now().pc == Idle
      ensures r.Failure? && r.error != DirSyncFailed ==> Entry(disk, SlotName(target, slot)) == old(Entry(disk, SlotName(target, slot)))
      ensures r.Failure? && r.error == DirSyncFailed ==> Contents(disk, SlotName(target, slot)) == Some(bytes)
    {
      hide AtomicTempPath, BackupPath, SlotName, Next, Crash, OldOrNew, Leaves, FilesOk;
      var name := SlotName(target, slot);
      ghost var d0 := disk;
      ghost var first := |run|;
      RunKeepsInv(target, run, |run| - 1);
      CreateOldOrNew(d0, AtomicTempPath(name, nonce), name, bytes);
      SlotTempApart(target, slot, nonce);
      var ino := OpenTemp(slot, bytes, nonce);
      if ino.None? {
        return Failure(OpenFailed);
      }
      r := Fill(slot, bytes, AtomicTempPath(name, nonce), ino.value, d0, first);
    }

    /** All bytes into the temporary file just opened, and then the file into place. */
    method Fill(slot: Slot, bytes: Bytes, temp: FileName, ino: nat, ghost d0: Disk, ghost first: nat)
      returns (r: Result<(), WriteError>)
      requires Valid() && first == |run| - 1 && Now().pc == Created(slot, temp, ino)
      requires Now().versions != [] && bytes == Now().versions[Newest(Now())]
      requires OldOrNew(d0, disk, SlotName(target, slot), bytes)
      modifies this
      ensures Valid() && old(run) <= run
      ensures SinceOldOrNew(first, d0, SlotName(target, slot), bytes)
      ensures r.Success? ==> Contents(disk, SlotName(target, slot)) == Some(bytes)
      ensures r.Success? ==> forall after :: Crash(disk, after) ==> Contents(after, SlotName(target, slot)) == Some(bytes)
      ensures r.Success? ==> Now().pc == if slot.Primary? then PrimaryDone else Idle
      ensures Now().versions == old(Now().versions)
      ensures r.Success? && slot.Backup? ==> PrimaryNewest(target, Now())
      ensures r.Failure? ==> Now().pc == Idle
      ensures r.Failure? && r.error != DirSyncFailed ==> Entry(disk, SlotName(target, slot)) == old(Entry(disk, SlotName(target, slot)))
      ensures r.Failure? && r.error == DirSyncFailed ==> Contents(disk, SlotName(target, slot)) == Some(bytes)
    {
      hide IsRun, AtomicTempPath, BackupPath, SlotName, Next, Crash, OldOrNew, Leaves, FilesOk;
      var name := SlotName(target, slot);
      ghost var created := disk;
      RunKeepsInv(target, run, |run| - 1);
      CreatedOwns(target, Now());
      var ok := WriteAll(ino, bytes);
      WritingKeepsOld(d0, created, run, first, name, bytes, ino);
      if !ok {
        return Failure(WriteFailed);
      }
      r := Publish(slot, bytes, temp, ino, d0, first);
    }

    method SyncTemp(slot: Slot, temp: FileName, ino: nat) returns (ok: bool)
      requires Valid() && Now().pc == Written(slot, temp, ino)
      modifies this
      ensures Valid() && |run| == |old(run)| + 1 && old(run) <= run
      ensures ok ==> disk == SyncFile(old(disk), ino) && Now() == old(Now()).(disk := disk, pc := Synced(slot, temp, ino))
      ensures !ok ==> disk == old(disk) && Now().pc == Idle
      ensures Now().versions == old(Now().versions)
    {
      hide Init, SlotName;
      var fails: bool := *;
      if fails {
        Fail();
        return false;
      }
      ghost var s' := Now().(disk := SyncFile(disk, ino), pc := Synced(slot, temp, ino));
      assert WorkNext(target, Now(), s');
      Advance(s');
      disk := SyncFile(disk, ino);
      return true;
    }

    /** Renames over the target; on failure the temporary file is removed, if that does not fail as well. */
    method RenameTemp(slot: Slot, temp: FileName, ino: nat) returns (ok: bool)
      requires Valid() && Now().pc == Synced(slot, temp, ino) && temp in disk.dir
      modifies this
      ensures Valid() && |run| == |old(run)| + 1 && old(run) <= run
      ensures ok ==> disk == Rename(old(disk), temp, SlotName(target, slot))
                     && Now() == old(Now()).(disk := disk, pc := Renamed(slot))
      ensures !ok ==> (disk == Remove(old(disk), temp) || disk == old(disk)) && Now().pc == Idle
      ensures Now().versions == old(Now().versions)
    {
      hide Init, SlotName;
      var fails: bool, removalFails: bool := *, *;
      if fails && removalFails {
        Fail();
        return false;
      }
      if fails {
        ghost var gone := Now().(disk := Remove(disk, temp), pc := Idle);
        assert WorkNext(target, Now(), gone);
        Advance(gone);
        disk := Remove(disk, temp);
        return false;
      }
      ghost var s' := Now().(disk := Rename(disk, temp, SlotName(target, slot)), pc := Renamed(slot));
      assert WorkNext(target, Now(), s');
      Advance(s');
      disk := Rename(disk, temp, SlotName(target, slot));
      return true;
    }

    method SyncParentDir(slot: Slot) returns (ok: bool)
      requires Valid() && Now().pc == Renamed(slot)
      modifies this
      ensures Valid() && |run| == |old(run)| + 1 && old(run) <= run
      ensures ok ==> disk == SyncDir(old(disk))
                     && Now() == old(Now()).(disk := disk, pc := if slot.Primary? then PrimaryDone else Idle)
      ensures !ok ==> disk == old(disk) && Now().pc == Idle
      ensures Now().versions == old(Now().versions)
    {
      hide Init, SlotName;
      var fails: bool := *;
      if fails {
        Fail();
        return false;
      }
      ghost var s' := Now().(disk := SyncDir(disk), pc := if slot.Primary? then PrimaryDone else Idle);
      assert WorkNext(target, Now(), s');
      Advance(s');
      disk := SyncDir(disk);
      return true;
    }

    /** Sync the temporary file, rename it over the target, sync the directory. */
    method Publish(slot: Slot, bytes: Bytes, temp: FileName, ino: nat, ghost d0: Disk, ghost first: nat)
      returns (r: Result<(), WriteError>)
      requires Valid() && first < |run|
      requires Now().pc == Written(slot, temp, ino)
      requires Now().versions != [] && bytes == Now().versions[Newest(Now())]
      requires SinceOldOrNew(first, d0, SlotName(target, slot), bytes)
      modifies this
      ensures Valid() && old(run) <= run
      ensures SinceOldOrNew(first, d0, SlotName(target, slot), bytes)
      ensures r.Success? ==> Contents(disk, SlotName(target, slot)) == Some(bytes)
      ensures r.Success? ==> forall after :: Crash(disk, after) ==> Contents(after, SlotName(target, slot)) == Some(bytes)
      ensures r.Success? ==> Now().pc == if slot.Primary? then PrimaryDone else Idle
      ensures Now().versions == old(Now().versions)
      ensures r.Success? && slot.Backup? ==> PrimaryNewest(target, Now())
      ensures r.Failure? ==> Now().pc == Idle
      ensures r.Failure? && r.error != DirSyncFailed ==> Entry(disk, SlotName(target, slot)) == old(Entry(disk, SlotName(target, slot)))
      ensures r.Failure? && r.error == DirSyncFailed ==> Contents(disk, SlotName(target, slot)) == Some(bytes)
    {
      hide IsRun, Next, Crash, BackupPath, SlotName, FilesOk, OldOrNew, Leaves;
      var name := SlotName(target, slot);
      ghost var d1, s1 := disk, Now();
      RunKeepsInv(target, run, |run| - 1);
      WrittenOwns(target, s1);
      var ok := SyncTemp(slot, temp, ino);
      SyncOldOrNew(d0, d1, ino, name, bytes);
      if !ok {
        return Failure(SyncFailed);
      }
      ghost var d2, s2 := disk, Now();
      ok := RenameTemp(slot, temp, ino);
      RemoveOldOrNew(d0, d2, temp, name, bytes);
      RenameOldOrNew(d0, d2, temp, name, bytes);
      if !ok {
        return Failure(RenameFailed);
      }
      ghost var d3, s3 := disk, Now();
      RunKeepsInv(target, run, |run| - 1);
      RenamedNewest(target, s3);
      ok := SyncParentDir(slot);
      SyncDirOldOrNew(d0, d3, name, bytes);
      if !ok {
        return Failure(DirSyncFailed);
      }
      SyncedForGood(target, s3, Now(), slot);
      return Success(());
    }

    /**
     `write_file_atomically_with_backup`: the backup is begun only once the primary is durable.
     `primaryDone` says that the call got that far.
     */
    method WriteFileAtomicallyWithBackup(bytes: Bytes, nonce: string, backupNonce: string)
      returns (r: Result<(), WriteError>, ghost primaryDone: bool)
      requires Valid() && Now().pc == Idle
      modifies this
      ensures Valid() && Now().pc == Idle && old(run) <= run
      ensures r.Success? ==> Contents(disk, target) == Some(bytes) && Contents(disk, BackupPath(target)) == Some(bytes)
      ensures r.Success? ==> forall after :: Crash(disk, after) ==>
                               Contents(after, target) == Some(bytes) && Contents(after, BackupPath(target)) == Some(bytes)
      // an error of the backup alone takes nothing from the primary
      ensures r.Success? ==> primaryDone
      ensures primaryDone ==> Contents(disk, target) == Some(bytes)
      ensures primaryDone ==> forall after :: Crash(disk, after) ==> Contents(after, target) == Some(bytes)
    {
      hide AtomicTempPath, BackupPath, IsRun, Next, PrimaryNewest;
      r := WriteFileAtomically(Primary, bytes, nonce);
      primaryDone := r.Success?;
      if r.Failure? {
        return;
      }
      ghost var j := |run| - 1;
      r := WriteFileAtomically(Backup, bytes, backupNonce);
      NewestStays(target, run, j, |run| - 1);
      NewestSurvives(target, Now());
    }
  }

  /** A primary that is the newest version in every entry survives every crash. */
  lemma NewestSurvives(target: FileName, s: State)
    requires PrimaryNewest(target, s)
    ensures Contents(s.disk, target) == Some(s.versions[Newest(s)])
    ensures forall after :: Crash(s.disk, after) ==> Contents(after, target) == Some(s.versions[Newest(s)])
  {
    assert Entry(s.disk, target) in Leaves(s.disk, target);
    assert Complete(s, Entry(s.disk, target));
    forall after | Crash(s.disk, after)
      ensures Contents(after, target) == Some(s.versions[Newest(s)])
    {
      assert Complete(s, Entry(after, target));
    }
  }

  lemma SlotTempApart(target: FileName, slot: Slot, nonce: string)
    ensures AtomicTempPath(SlotName(target, slot), nonce) != SlotName(target, slot)
  {
    TempNamesApart(target, nonce);
  }

  lemma CreateOldOrNew(d0: Disk, temp: FileName, name: FileName, bytes: Bytes)
    requires forall ino :: ino in d0.data ==> ino < d0.next
    ensures OldOrNew(d0, d0, name, bytes)
    ensures temp != name ==> OldOrNew(d0, Create(d0, temp), name, bytes)
    ensures temp != name ==> Entry(Create(d0, temp), name) == Entry(d0, name)
  {
    if temp != name {
      assert Leaves(Create(d0, temp), name) == Leaves(d0, name);
    }
  }

  lemma CreatedOwns(target: FileName, s: State)
    requires Inv(target, s) && s.pc.Created?
    ensures Some(s.pc.ino) !in Leaves(s.disk, SlotName(target, s.pc.slot))
  {
  }

  lemma WritingIsOld(d0: Disk, created: Disk, d: Disk, name: FileName, bytes: Bytes, ino: nat)
    requires OldOrNew(d0, created, name, bytes) && Some(ino) !in Leaves(created, name)
    requires exists sofar: Bytes :: d == Write(created, ino, sofar)
    ensures OldOrNew(d0, d, name, bytes)
  {
    StepOldOrNew(d0, created, d, name, bytes);
  }

  lemma WritingKeepsOld(d0: Disk, created: Disk, run: seq<State>, first: nat, name: FileName, bytes: Bytes, ino: nat)
    requires OldOrNew(d0, created, name, bytes) && Some(ino) !in Leaves(created, name)
    requires forall i :: first < i < |run| ==> run[i].disk == created || exists sofar: Bytes :: run[i].disk == Write(created, ino, sofar)
    ensures forall i :: first < i < |run| ==> OldOrNew(d0, run[i].disk, name, bytes)
  {
    hide OldOrNew, Leaves;
    forall i | first < i < |run|
      ensures OldOrNew(d0, run[i].disk, name, bytes)
    {
      if run[i].disk != created {
        WritingIsOld(d0, created, run[i].disk, name, bytes, ino);
      }
    }
  }

  lemma SyncOldOrNew(d0: Disk, d: Disk, ino: nat, name: FileName, bytes: Bytes)
    requires OldOrNew(d0, d, name, bytes)
    ensures OldOrNew(d0, SyncFile(d, ino), name, bytes)
  {
    StepOldOrNew(d0, d, SyncFile(d, ino), name, bytes);
  }

  lemma RemoveOldOrNew(d0: Disk, d: Disk, temp: FileName, name: FileName, bytes: Bytes)
    requires OldOrNew(d0, d, name, bytes) && temp != name
    ensures OldOrNew(d0, Remove(d, temp), name, bytes)
    ensures Entry(Remove(d, temp), name) == Entry(d, name)
  {
    StepOldOrNew(d0, d, Remove(d, temp), name, bytes);
  }

  lemma SyncDirOldOrNew(d0: Disk, d: Disk, name: FileName, bytes: Bytes)
    requires OldOrNew(d0, d, name, bytes)
    ensures OldOrNew(d0, SyncDir(d), name, bytes)
  {
    StepOldOrNew(d0, d, SyncDir(d), name, bytes);
  }

  /** What the machine's invariant says once all bytes are written. */
  lemma WrittenOwns(target: FileName, s: State)
    requires Inv(target, s) && s.pc.Written?
    ensures s.versions != [] && s.pc.temp in s.disk.dir && s.disk.dir[s.pc.temp] == s.pc.ino
    ensures s.pc.ino in s.disk.data && s.disk.data[s.pc.ino] == s.versions[Newest(s)]
    ensures s.pc.temp != SlotName(target, s.pc.slot)
  {
  }

  lemma RenamedNewest(target: FileName, s: State)
    requires Inv(target, s) && s.pc.Renamed?
    ensures s.versions != [] && Contents(s.disk, SlotName(target, s.pc.slot)) == Some(s.versions[Newest(s)])
  {
  }

  /** After the directory sync the renamed file is the newest version, whatever crash follows. */
  lemma SyncedForGood(target: FileName, s: State, s': State, slot: Slot)
    requires Inv(target, s) && s.pc == Renamed(slot) && s'.disk == SyncDir(s.disk)
    requires s'.versions == s.versions && s'.version == s.version
    ensures s.versions != []
    ensures Contents(s'.disk, SlotName(target, slot)) == Some(s.versions[Newest(s)])
    ensures forall after :: Crash(s'.disk, after) ==> Contents(after, SlotName(target, slot)) == Some(s.versions[Newest(s)])
    ensures slot.Backup? ==> PrimaryNewest(target, s')
  {
    var name := SlotName(target, slot);
    var e := Entry(s.disk, name);
    forall after | Crash(s'.disk, after)
      ensures Contents(after, name) == Some(s.versions[Newest(s)])
    {
      assert Entry(after, name) in Leaves(s'.disk, name);
      assert Entry(after, name) == e;
    }
    if slot.Backup? {
      assert Leaves(s'.disk, target) <= Leaves(s.disk, target);
    }
  }

  lemma RenameOldOrNew(d0: Disk, d: Disk, temp: FileName, name: FileName, bytes: Bytes)
    requires OldOrNew(d0, d, name, bytes) && temp != name && temp in d.dir
    requires d.dir[temp] in d.synced && d.dir[temp] in d.data && d.data[d.dir[temp]] == bytes
    ensures OldOrNew(d0, Rename(d, temp, name), name, bytes)
  {
    var d' := Rename(d, temp, name);
    assert Leaves(d', name) == Leaves(d, name) + {Some(d.dir[temp])};
    forall e | e in Leaves(d', name)
      ensures OldOrNewEntry(d0, d', name, bytes, e)
    {
      assert e in Leaves(d, name) ==> OldOrNewEntry(d0, d, name, bytes, e);
    }
  }
}
