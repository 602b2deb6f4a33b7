/**
 Crash-atomic file replacement (src/fsutil.rs). One directory holds the target, its backup
 and the temporary files. Every directory entry and every file's bytes may lag behind on the
 medium until synchronised, so a crash may leave any entry a name has had since the last
 directory sync, and anything at all in a file not yet synced. `rename` replaces an entry
 atomically (IEEE Std 1003.1, rename()).
 */
module FileReplace {
  import opened Prelude

  newtype byte = b: int | 0 <= b < 256

  type Bytes = seq<byte>

  // ------------------------------------------------------------------- names

  /** A file name; one that is not valid UTF-8 has no string form. */
  datatype FileName = Utf8(text: string) | Raw(bytes: Bytes)

  function Text(name: FileName, otherwise: string): string
  {
    if name.Utf8? then name.text else otherwise
  }

  function BackupPath(name: FileName): FileName
  {
    Utf8(Text(name, "grm-data") + ".bak")
  }

  function LogPath(name: FileName): FileName
  {
    Utf8(Text(name, "grm-data") + ".log")
  }

  /** `nonce` stands for the process id and clock reading of the original. */
  function AtomicTempPath(name: FileName, nonce: string): FileName
  {
    Utf8("." + Text(name, "grm-temp") + ".tmp-" + nonce)
  }

  /** Temporary names never hit the target or its backup, whichever of the two is being written. */
  lemma TempNamesApart(name: FileName, nonce: string)
    ensures AtomicTempPath(name, nonce) != name
    ensures AtomicTempPath(name, nonce) != BackupPath(name)
    ensures AtomicTempPath(BackupPath(name), nonce) != name
    ensures AtomicTempPath(BackupPath(name), nonce) != BackupPath(name)
    ensures BackupPath(name) != name
  {
    assert |AtomicTempPath(name, nonce).text| == |Text(name, "grm-temp")| + |nonce| + 6;
    assert |AtomicTempPath(BackupPath(name), nonce).text| == |Text(name, "grm-data")| + |nonce| + 10;
    assert AtomicTempPath(name, nonce).text[0] == '.';
    if name.Raw? {
      assert BackupPath(name).text[0] == 'g';
    }
  }

  /** Backups collide exactly when the names share their string form: all names without one share a backup. */
  lemma BackupsCollide(a: FileName, b: FileName)
    ensures BackupPath(a) == BackupPath(b) <==> Text(a, "grm-data") == Text(b, "grm-data")
    ensures a.Raw? && b.Raw? ==> BackupPath(a) == BackupPath(b)
  {
    var x, y := Text(a, "grm-data"), Text(b, "grm-data");
    if x + ".bak" == y + ".bak" {
      assert (x + ".bak")[..|x|] == x && (y + ".bak")[..|y|] == y;
    }
  }

  /** Logs collide just as backups do. */
  lemma LogsCollide(a: FileName, b: FileName)
    ensures LogPath(a) == LogPath(b) <==> BackupPath(a) == BackupPath(b)
  {
    var x, y := Text(a, "grm-data"), Text(b, "grm-data");
    BackupsCollide(a, b);
    if x + ".log" == y + ".log" {
      assert (x + ".log")[..|x|] == x && (y + ".log")[..|y|] == y;
    }
  }

  /** Two files of one directory that share a backup, each write replacing the other's, and a log. */
  lemma TwoFilesOneBackup()
    ensures exists a, b :: a != b && BackupPath(a) == BackupPath(b) && LogPath(a) == LogPath(b)
  {
    BackupsCollide(Raw([0xff]), Raw([0xfe]));
    LogsCollide(Raw([0xff]), Raw([0xfe]));
    assert [0xff as byte] != [0xfe];
    assert Raw([0xff]) != Raw([0xfe]);
  }

  // -------------------------------------------------------------------- disk

  /**
   `dir` and `data` are what running programs see. `pending` lists, for names changed since the
   last directory sync, every entry a crash may leave; `synced` are the files whose bytes are
   on the medium.
   */
  datatype Disk = Disk(
    dir: map<FileName, nat>,
    pending: map<FileName, set<Option<nat>>>,
    data: map<nat, Bytes>,
    synced: set<nat>,
    next: nat)

  function Entry(d: Disk, name: FileName): Option<nat>
  {
    if name in d.dir then Some(d.dir[name]) else None
  }

  /** The entries a crash may leave at `name`. */
  function Leaves(d: Disk, name: FileName): set<Option<nat>>
  {
    if name in d.pending then d.pending[name] + {Entry(d, name)} else {Entry(d, name)}
  }

  function Contents(d: Disk, name: FileName): Option<Bytes>
  {
    if name in d.dir && d.dir[name] in d.data then Some(d.data[d.dir[name]]) else None
  }

  function Create(d: Disk, name: FileName): Disk
  {
    d.(dir := d.dir[name := d.next],
       pending := d.pending[name := Leaves(d, name)],
       data := d.data[d.next := []],
       next := d.next + 1)
  }

  function Write(d: Disk, ino: nat, bytes: Bytes): Disk
  {
    d.(data := d.data[ino := bytes], synced := d.synced - {ino})
  }

  function SyncFile(d: Disk, ino: nat): Disk
  {
    d.(synced := d.synced + {ino})
  }

  function Rename(d: Disk, from: FileName, to: FileName): Disk
    requires from in d.dir
  {
    d.(dir := (d.dir - {from})[to := d.dir[from]],
       pending := d.pending[from := Leaves(d, from)][to := Leaves(d, to)])
  }

  function Remove(d: Disk, name: FileName): Disk
  {
    d.(dir := d.dir - {name}, pending := d.pending[name := Leaves(d, name)])
  }

  function SyncDir(d: Disk): Disk
  {
    d.(pending := map[])
  }

  /** `d'` is what may be found after a crash in `d`. */
  ghost predicate Crash(d: Disk, d': Disk)
  {
    && d'.pending == map[] && d'.next >= d.next
    && (forall name :: Entry(d', name) in Leaves(d, name))
    && (forall name :: name in d'.dir ==> d'.dir[name] in d'.data)
    && (forall ino :: ino in d'.data && ino in d.synced && ino in d.data ==> d'.data[ino] == d.data[ino])
    && d'.synced == d'.data.Keys
    && (forall ino :: ino in d'.data ==> ino < d'.next)
  }

  // ----------------------------------------------------------- state machine

  datatype Slot = Primary | Backup

  datatype Pc =
    | Idle
    | Created(slot: Slot, temp: FileName, ino: nat)   // temporary file open, bytes going in
    | Written(slot: Slot, temp: FileName, ino: nat)   // all bytes written
    | Synced(slot: Slot, temp: FileName, ino: nat)    // bytes on the medium
    | Renamed(slot: Slot)                             // target replaced, directory not yet synced
    | PrimaryDone                                     // primary durable, backup not yet begun

  /** `versions` are the contents handed to writes so far; `version` numbers the files made for them. */
  datatype State = State(disk: Disk, pc: Pc, versions: seq<Bytes>, version: map<nat, nat>)

  function SlotName(target: FileName, slot: Slot): FileName
  {
    if slot.Primary? then target else BackupPath(target)
  }

  function Newest(s: State): nat
    requires s.versions != []
  {
    |s.versions| - 1
  }

  /** Opening the temporary file with `create_new`. */
  ghost predicate BeginNext(target: FileName, s: State, s': State, slot: Slot, nonce: string, bytes: Bytes)
  {
    var temp := AtomicTempPath(SlotName(target, slot), nonce);
    && temp !in s.disk.dir
    && s.pc == (if slot.Primary? then Idle else PrimaryDone)
    && s'.disk == Create(s.disk, temp)
    && s'.pc == Created(slot, temp, s.disk.next)
    && (if slot.Primary? then s'.versions == s.versions + [bytes]
        else s'.versions == s.versions && s.versions != [] && bytes == s.versions[Newest(s)])
    && s'.versions != []
    && s'.version == s.version[s.disk.next := Newest(s')]
  }

  /** Every other step a running write can make. */
  ghost predicate WorkNext(target: FileName, s: State, s': State)
  {
    && s'.versions == s.versions && s'.version == s.version
    && match s.pc
       case Created(slot, temp, ino) =>
         s.versions != [] &&
         exists sofar: Bytes ::
           && sofar <= s.versions[Newest(s)] && s'.disk == Write(s.disk, ino, sofar)
           && (s'.pc == s.pc || (s'.pc == Written(slot, temp, ino) && sofar == s.versions[Newest(s)]))
       case Written(slot, temp, ino) =>
         s'.disk == SyncFile(s.disk, ino) && s'.pc == Synced(slot, temp, ino)
       case Synced(slot, temp, ino) =>
         temp in s.disk.dir
         && ((s'.disk == Rename(s.disk, temp, SlotName(target, slot)) && s'.pc == Renamed(slot))
             || (s'.disk == Remove(s.disk, temp) && s'.pc == Idle))
       case Renamed(slot) =>
         s'.disk == SyncDir(s.disk) && s'.pc == (if slot.Primary? then PrimaryDone else Idle)
       case _ => false
  }

  /** Any step may fail, which abandons the write and leaves the disk as it is. */
  ghost predicate FailNext(s: State, s': State)
  {
    s' == s.(pc := Idle)
  }

  ghost predicate CrashNext(s: State, s': State)
  {
    Crash(s.disk, s'.disk) && s' == s.(pc := Idle, disk := s'.disk)
  }

  ghost predicate Next(target: FileName, s: State, s': State)
  {
    || (exists slot, nonce, bytes :: BeginNext(target, s, s', slot, nonce, bytes))
    || WorkNext(target, s, s')
    || FailNext(s, s')
    || CrashNext(s, s')
  }

  /** Both files exist, durable and equal; nothing else is going on. */
  ghost predicate Init(target: FileName, s: State)
  {
    && s.pc == Idle && |s.versions| == 1 && s.disk.pending == map[]
    && (forall ino :: ino in s.disk.data ==> ino < s.disk.next)
    && (forall slot: Slot :: var name := SlotName(target, slot);
          && name in s.disk.dir && s.disk.dir[name] in s.disk.data && s.disk.dir[name] in s.disk.synced
          && s.disk.data[s.disk.dir[name]] == s.versions[0]
          && s.disk.dir[name] in s.version && s.version[s.disk.dir[name]] == 0)
  }

  ghost predicate IsRun(target: FileName, run: seq<State>)
  {
    && run != [] && Init(target, run[0])
    && forall i :: 0 <= i < |run| - 1 ==> Next(target, run[i], run[i + 1])
  }

  // --------------------------------------------------------------- invariant

  /** `e` is a complete, durable copy of one of the versions. */
  ghost predicate Complete(s: State, e: Option<nat>)
  {
    && e.Some? && e.value in s.disk.data && e.value in s.disk.synced && e.value < s.disk.next
    && e.value in s.version && s.version[e.value] < |s.versions|
    && s.disk.data[e.value] == s.versions[s.version[e.value]]
  }

  ghost predicate PrimaryNewest(target: FileName, s: State)
  {
    s.versions != [] && forall e :: e in Leaves(s.disk, target) ==>
                                      Complete(s, e) && s.version[e.value] == Newest(s)
  }

  /** The temporary file belongs to this write alone. */
  ghost predicate OwnsTemp(target: FileName, s: State, slot: Slot, temp: FileName, ino: nat)
  {
    && s.versions != [] && temp != target && temp != BackupPath(target)
    && temp in s.disk.dir && s.disk.dir[temp] == ino && ino in s.disk.data && ino < s.disk.next
    && Some(ino) !in Leaves(s.disk, target) && Some(ino) !in Leaves(s.disk, BackupPath(target))
    && ino in s.version && s.version[ino] == Newest(s)
    && (slot.Backup? ==> PrimaryNewest(target, s))
  }

  ghost predicate PcOk(target: FileName, s: State)
  {
    match s.pc
    case Idle => true
    case Created(slot, temp, ino) => OwnsTemp(target, s, slot, temp, ino)
    case Written(slot, temp, ino) =>
      OwnsTemp(target, s, slot, temp, ino) && s.disk.data[ino] == s.versions[Newest(s)]
    case Synced(slot, temp, ino) =>
      OwnsTemp(target, s, slot, temp, ino) && s.disk.data[ino] == s.versions[Newest(s)] && ino in s.disk.synced
    case Renamed(slot) =>
      s.versions != []
      && (var e := Entry(s.disk, SlotName(target, slot)); Complete(s, e) && s.version[e.value] == Newest(s))
      && (slot.Backup? ==> PrimaryNewest(target, s))
    case PrimaryDone => PrimaryNewest(target, s)
  }

  /** Whatever a crash leaves, both files are complete and the backup is not newer. */
  ghost predicate FilesOk(target: FileName, s: State)
  {
    && (forall e :: e in Leaves(s.disk, target) ==> Complete(s, e))
    && (forall e :: e in Leaves(s.disk, BackupPath(target)) ==> Complete(s, e))
    && (forall p, b :: p in Leaves(s.disk, target) && b in Leaves(s.disk, BackupPath(target)) ==>
          p.Some? && b.Some? && p.value in s.version && b.value in s.version && s.version[b.value] <= s.version[p.value])
  }

  ghost predicate Inv(target: FileName, s: State)
  {
    FilesOk(target, s) && PcOk(target, s) && forall ino :: ino in s.disk.data ==> ino < s.disk.next
  }

  lemma InitInv(target: FileName, s: State)
    requires Init(target, s)
    ensures Inv(target, s)
  {
    assert SlotName(target, Primary) == target && SlotName(target, Backup) == BackupPath(target);
  }

  /** A step that adds no entry for either file, and spoils no complete file, keeps `FilesOk`. */
  lemma FilesKept(target: FileName, s: State, s': State)
    requires FilesOk(target, s)
    requires Leaves(s'.disk, target) <= Leaves(s.disk, target)
    requires Leaves(s'.disk, BackupPath(target)) <= Leaves(s.disk, BackupPath(target))
    requires forall e :: e in Leaves(s.disk, target) + Leaves(s.disk, BackupPath(target)) && Complete(s, e) ==>
                           Complete(s', e) && s'.version[e.value] == s.version[e.value]
    ensures FilesOk(target, s')
  {
    hide BackupPath, Leaves;
  }

  lemma BeginKeepsInv(target: FileName, s: State, s': State, slot: Slot, nonce: string, bytes: Bytes)
    requires Inv(target, s) && BeginNext(target, s, s', slot, nonce, bytes)
    ensures Inv(target, s')
  {
    BeginKeepsFiles(target, s, s', slot, nonce, bytes);
    BeginOwnsTemp(target, s, s', slot, nonce, bytes);
    hide FilesOk, OwnsTemp, AtomicTempPath;
  }

  lemma BeginOwnsTemp(target: FileName, s: State, s': State, slot: Slot, nonce: string, bytes: Bytes)
    requires Inv(target, s) && BeginNext(target, s, s', slot, nonce, bytes)
    ensures OwnsTemp(target, s', slot, AtomicTempPath(SlotName(target, slot), nonce), s.disk.next)
  {
    hide AtomicTempPath, BackupPath;
    TempNamesApart(target, nonce);
    assert Leaves(s'.disk, target) == Leaves(s.disk, target);
    assert Leaves(s'.disk, BackupPath(target)) == Leaves(s.disk, BackupPath(target));
    assert Some(s.disk.next) !in Leaves(s.disk, target) && Some(s.disk.next) !in Leaves(s.disk, BackupPath(target));
    if slot.Backup? {
      assert PrimaryNewest(target, s);
      hide Leaves;
      assert PrimaryNewest(target, s');
    }
  }

  lemma BeginKeepsFiles(target: FileName, s: State, s': State, slot: Slot, nonce: string, bytes: Bytes)
    requires Inv(target, s) && BeginNext(target, s, s', slot, nonce, bytes)
    ensures FilesOk(target, s')
  {
    hide AtomicTempPath, BackupPath, PcOk;
    TempNamesApart(target, nonce);
    assert Leaves(s'.disk, target) == Leaves(s.disk, target);
    assert Leaves(s'.disk, BackupPath(target)) == Leaves(s.disk, BackupPath(target));
    FilesKept(target, s, s');
  }

  lemma WriteKeepsInv(target: FileName, s: State, s': State, slot: Slot, temp: FileName, ino: nat, sofar: Bytes)
    requires Inv(target, s) && s.pc == Created(slot, temp, ino)
    requires s' == s.(disk := Write(s.disk, ino, sofar), pc := s'.pc)
    requires s'.pc == s.pc || (s'.pc == Written(slot, temp, ino) && sofar == s.versions[Newest(s)])
    ensures Inv(target, s')
  {
    hide BackupPath;
    assert Leaves(s'.disk, target) == Leaves(s.disk, target);
    assert Leaves(s'.disk, BackupPath(target)) == Leaves(s.disk, BackupPath(target));
    FilesKept(target, s, s');
  }

  lemma SyncKeepsInv(target: FileName, s: State, s': State, slot: Slot, temp: FileName, ino: nat)
    requires Inv(target, s) && s.pc == Written(slot, temp, ino)
    requires s' == s.(disk := SyncFile(s.disk, ino), pc := Synced(slot, temp, ino))
    ensures Inv(target, s')
  {
    hide BackupPath;
    assert Leaves(s'.disk, target) == Leaves(s.disk, target);
    assert Leaves(s'.disk, BackupPath(target)) == Leaves(s.disk, BackupPath(target));
    FilesKept(target, s, s');
  }

  lemma RemoveKeepsInv(target: FileName, s: State, s': State, slot: Slot, temp: FileName, ino: nat)
    requires Inv(target, s) && s.pc == Synced(slot, temp, ino)
    requires s' == s.(disk := Remove(s.disk, temp), pc := Idle)
    ensures Inv(target, s')
  {
    hide BackupPath;
    assert Leaves(s'.disk, target) == Leaves(s.disk, target);
    assert Leaves(s'.disk, BackupPath(target)) == Leaves(s.disk, BackupPath(target));
    FilesKept(target, s, s');
  }

  lemma RenamePrimaryKeepsInv(target: FileName, s: State, s': State, temp: FileName, ino: nat)
    requires Inv(target, s) && s.pc == Synced(Primary, temp, ino)
    requires s' == s.(pc := Renamed(Primary), disk := Rename(s.disk, temp, target))
    requires BackupPath(target) != target
    ensures Inv(target, s')
  {
    hide BackupPath;
    assert Leaves(s'.disk, target) == Leaves(s.disk, target) + {Some(ino)};
    assert Leaves(s'.disk, BackupPath(target)) == Leaves(s.disk, BackupPath(target));
    assert Complete(s', Some(ino));
    assert forall e :: Complete(s, e) ==> Complete(s', e);
    assert Entry(s'.disk, target) == Some(ino);
    hide Complete, Leaves;
  }

  lemma RenameBackupKeepsInv(target: FileName, s: State, s': State, temp: FileName, ino: nat)
    requires Inv(target, s) && s.pc == Synced(Backup, temp, ino)
    requires s' == s.(pc := Renamed(Backup), disk := Rename(s.disk, temp, BackupPath(target)))
    requires BackupPath(target) != target
    ensures Inv(target, s')
  {
    hide BackupPath;
    var backup := BackupPath(target);
    assert Leaves(s'.disk, target) == Leaves(s.disk, target);
    assert Leaves(s'.disk, backup) == Leaves(s.disk, backup) + {Some(ino)};
    assert Complete(s', Some(ino));
    assert forall e :: Complete(s, e) ==> Complete(s', e);
    assert Entry(s'.disk, backup) == Some(ino);
    assert PrimaryNewest(target, s');
    hide Complete, Leaves;
  }

  lemma DirSyncKeepsInv(target: FileName, s: State, s': State, slot: Slot)
    requires Inv(target, s) && s.pc == Renamed(slot)
    requires s' == s.(disk := SyncDir(s.disk), pc := if slot.Primary? then PrimaryDone else Idle)
    ensures Inv(target, s')
  {
    hide BackupPath;
    FilesKept(target, s, s');
    if slot.Primary? {
      assert Leaves(s'.disk, target) == {Entry(s.disk, target)};
      assert Complete(s', Entry(s.disk, target));
    }
  }

  lemma WorkKeepsInv(target: FileName, s: State, s': State)
    requires Inv(target, s) && WorkNext(target, s, s')
    ensures Inv(target, s')
  {
    hide AtomicTempPath, BackupPath, Inv;
    TempNamesApart(target, "");
    match s.pc {
      case Created(slot, temp, ino) =>
        var sofar: Bytes :| sofar <= s.versions[Newest(s)] && s'.disk == Write(s.disk, ino, sofar)
                            && (s'.pc == s.pc || (s'.pc == Written(slot, temp, ino) && sofar == s.versions[Newest(s)]));
        WriteKeepsInv(target, s, s', slot, temp, ino, sofar);
      case Written(slot, temp, ino) =>
        SyncKeepsInv(target, s, s', slot, temp, ino);
      case Synced(slot, temp, ino) =>
        if s'.pc == Idle {
          RemoveKeepsInv(target, s, s', slot, temp, ino);
        } else if slot.Primary? {
          RenamePrimaryKeepsInv(target, s, s', temp, ino);
        } else {
          RenameBackupKeepsInv(target, s, s', temp, ino);
        }
      case Renamed(slot) =>
        DirSyncKeepsInv(target, s, s', slot);
    }
  }

  lemma CrashKeepsInv(target: FileName, s: State, s': State)
    requires Inv(target, s) && CrashNext(s, s')
    ensures Inv(target, s')
  {
    hide AtomicTempPath, BackupPath;
    var backup := BackupPath(target);
    assert Entry(s'.disk, target) in Leaves(s.disk, target);
    assert Entry(s'.disk, backup) in Leaves(s.disk, backup);
    assert Leaves(s'.disk, target) == {Entry(s'.disk, target)};
    assert Leaves(s'.disk, backup) == {Entry(s'.disk, backup)};
    assert Complete(s', Entry(s'.disk, target)) && Complete(s', Entry(s'.disk, backup));
  }

  lemma NextKeepsInv(target: FileName, s: State, s': State)
    requires Inv(target, s) && Next(target, s, s')
    ensures Inv(target, s')
  {
    if slot, nonce, bytes :| BeginNext(target, s, s', slot, nonce, bytes) {
      BeginKeepsInv(target, s, s', slot, nonce, bytes);
    } else if WorkNext(target, s, s') {
      WorkKeepsInv(target, s, s');
    } else if CrashNext(s, s') {
      CrashKeepsInv(target, s, s');
    }
  }

  lemma {:induction false} RunKeepsInv(target: FileName, run: seq<State>, i: nat)
    requires IsRun(target, run) && i < |run|
    ensures Inv(target, run[i])
  {
    if i == 0 {
      InitInv(target, run[0]);
    } else {
      RunKeepsInv(target, run, i - 1);
      NextKeepsInv(target, run[i - 1], run[i]);
    }
  }

  /**
   In every run of writes, failures and crashes, and at whatever point the next crash comes,
   both files hold one complete version each and the backup's is not newer.
   */
  lemma CrashSafe(target: FileName, run: seq<State>, i: nat, after: Disk)
    requires IsRun(target, run) && i < |run| && Crash(run[i].disk, after)
    ensures exists p: nat, b: nat :: b <= p < |run[i].versions|
              && Contents(after, target) == Some(run[i].versions[p])
              && Contents(after, BackupPath(target)) == Some(run[i].versions[b])
  {
    RunKeepsInv(target, run, i);
    var s := run[i];
    var e, f := Entry(after, target), Entry(after, BackupPath(target));
    assert Complete(s, e) && Complete(s, f);
    var p, b := s.version[e.value], s.version[f.value];
    assert b <= p && Contents(after, target) == Some(s.versions[p]);
  }

  /** Entries that were there and stay complete, or are the newest version, keep the primary newest. */
  lemma NewestFrom(target: FileName, s: State, s': State)
    requires PrimaryNewest(target, s) && s'.versions == s.versions
    requires forall e :: e in Leaves(s'.disk, target) ==>
               || (e in Leaves(s.disk, target) && (Complete(s, e) ==> Complete(s', e) && s'.version[e.value] == s.version[e.value]))
               || (Complete(s', e) && s'.version[e.value] == Newest(s'))
    ensures PrimaryNewest(target, s')
  {
    hide Leaves, Complete;
  }

  lemma WriteKeepsNewest(target: FileName, s: State, s': State, slot: Slot, temp: FileName, ino: nat, sofar: Bytes)
    requires Inv(target, s) && s.pc == Created(slot, temp, ino) && PrimaryNewest(target, s)
    requires s' == s.(disk := Write(s.disk, ino, sofar), pc := s'.pc)
    ensures PrimaryNewest(target, s')
  {
    hide BackupPath;
    assert Leaves(s'.disk, target) == Leaves(s.disk, target);
    NewestFrom(target, s, s');
  }

  lemma RenameKeepsNewest(target: FileName, s: State, s': State, slot: Slot, temp: FileName, ino: nat)
    requires Inv(target, s) && s.pc == Synced(slot, temp, ino) && PrimaryNewest(target, s) && BackupPath(target) != target
    requires s' == s.(pc := Renamed(slot), disk := Rename(s.disk, temp, SlotName(target, slot)))
    ensures PrimaryNewest(target, s')
  {
    hide BackupPath, AtomicTempPath;
    assert Leaves(s'.disk, target) == if slot.Primary? then Leaves(s.disk, target) + {Some(ino)} else Leaves(s.disk, target);
    assert Complete(s', Some(ino));
    assert forall e :: Complete(s, e) ==> Complete(s', e);
    NewestFrom(target, s, s');
  }

  /** Steps that touch neither the primary's entries nor any bytes. */
  lemma QuietKeepsNewest(target: FileName, s: State, s': State)
    requires PrimaryNewest(target, s) && s'.versions == s.versions && s'.version == s.version
    requires s'.disk.data == s.disk.data && s.disk.synced <= s'.disk.synced && s'.disk.next == s.disk.next
    requires Leaves(s'.disk, target) <= Leaves(s.disk, target)
    ensures PrimaryNewest(target, s')
  {
    NewestFrom(target, s, s');
  }

  /** Nothing but the next write brings an entry that is not the newest version. */
  lemma WorkKeepsNewest(target: FileName, s: State, s': State)
    requires Inv(target, s) && PrimaryNewest(target, s) && WorkNext(target, s, s')
    ensures PrimaryNewest(target, s')
  {
    hide AtomicTempPath, BackupPath, PrimaryNewest, FilesOk;
    TempNamesApart(target, "");
    match s.pc {
      case Created(slot, temp, ino) =>
        var sofar: Bytes :| sofar <= s.versions[Newest(s)] && s'.disk == Write(s.disk, ino, sofar)
                            && (s'.pc == s.pc || (s'.pc == Written(slot, temp, ino) && sofar == s.versions[Newest(s)]));
        WriteKeepsNewest(target, s, s', slot, temp, ino, sofar);
      case Written(_, _, _) => QuietKeepsNewest(target, s, s');
      case Synced(slot, temp, ino) =>
        if s'.pc == Idle {
          QuietKeepsNewest(target, s, s');
        } else {
          RenameKeepsNewest(target, s, s', slot, temp, ino);
        }
      case Renamed(_) => QuietKeepsNewest(target, s, s');
    }
  }

  lemma BackupBeginKeepsNewest(target: FileName, s: State, s': State, nonce: string, bytes: Bytes)
    requires Inv(target, s) && PrimaryNewest(target, s) && BeginNext(target, s, s', Backup, nonce, bytes)
    ensures PrimaryNewest(target, s')
  {
    TempNamesApart(target, nonce);
    hide AtomicTempPath, BackupPath;
    assert Leaves(s'.disk, target) == Leaves(s.disk, target);
    NewestFrom(target, s, s');
  }

  lemma CrashKeepsNewest(target: FileName, s: State, s': State)
    requires PrimaryNewest(target, s) && CrashNext(s, s')
    ensures PrimaryNewest(target, s')
  {
    assert Leaves(s'.disk, target) == {Entry(s'.disk, target)};
    NewestFrom(target, s, s');
  }

  lemma NewestKept(target: FileName, s: State, s': State)
    requires Inv(target, s) && PrimaryNewest(target, s) && Next(target, s, s') && |s'.versions| == |s.versions|
    ensures PrimaryNewest(target, s') && s'.versions == s.versions
  {
    hide WorkNext, PrimaryNewest, Crash, AtomicTempPath, BackupPath, Inv;
    if WorkNext(target, s, s') {
      WorkVersions(target, s, s');
      WorkKeepsNewest(target, s, s');
    } else if slot, nonce, bytes :| BeginNext(target, s, s', slot, nonce, bytes) {
      BackupBeginKeepsNewest(target, s, s', nonce, bytes);
    } else if CrashNext(s, s') {
      CrashKeepsNewest(target, s, s');
    } else {
      assert FailNext(s, s');
      PcApart(target, s, s');
    }
  }

  lemma PcApart(target: FileName, s: State, s': State)
    requires PrimaryNewest(target, s) && s' == s.(pc := s'.pc)
    ensures PrimaryNewest(target, s')
  {
    assert forall e :: Complete(s, e) ==> Complete(s', e);
  }

  lemma WorkVersions(target: FileName, s: State, s': State)
    requires WorkNext(target, s, s')
    ensures s'.versions == s.versions
  {
  }

  lemma VersionsGrow(target: FileName, s: State, s': State)
    requires Next(target, s, s')
    ensures |s.versions| <= |s'.versions|
  {
    if WorkNext(target, s, s') {
      WorkVersions(target, s, s');
    }
  }

  lemma {:induction false} NewestStays(target: FileName, run: seq<State>, j: nat, i: nat)
    requires IsRun(target, run) && j <= i < |run| && run[j].pc == PrimaryDone
    ensures |run[j].versions| <= |run[i].versions|
    ensures |run[i].versions| == |run[j].versions| ==> PrimaryNewest(target, run[i]) && run[i].versions == run[j].versions
    decreases i
  {
    hide Next, PrimaryNewest, FilesOk;
    if i == j {
      RunKeepsInv(target, run, j);
    } else {
      NewestStays(target, run, j, i - 1);
      RunKeepsInv(target, run, i - 1);
      assert Next(target, run[i - 1], run[i]);
      VersionsGrow(target, run[i - 1], run[i]);
      if |run[i].versions| == |run[j].versions| {
        NewestKept(target, run[i - 1], run[i]);
      }
    }
  }

  /**
   Once the primary's directory sync returned, every crash up to the next write leaves that
   version: also while the backup is written, after it failed, and after earlier crashes.
   */
  lemma DurableUntilNextWrite(target: FileName, run: seq<State>, j: nat, i: nat, after: Disk)
    requires IsRun(target, run) && j <= i < |run| && run[j].pc == PrimaryDone
    requires |run[i].versions| == |run[j].versions| && Crash(run[i].disk, after)
    ensures run[j].versions != []
    ensures Contents(after, target) == Some(run[j].versions[Newest(run[j])])
  {
    NewestStays(target, run, j, i);
    assert Complete(run[i], Entry(after, target));
  }
}
