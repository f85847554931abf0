/** The checkpoint's files, and what may be found on them after a crash. */
module SyncDisk {
  import opened Wrappers
  import opened SyncState

  /** A file that is missing, half written, or holds a complete encoded state. */
  datatype File = Absent | Torn | Whole(state: State)

  /** The checkpoint's directory. `unsettled` holds the earlier primaries whose replacement has not
      been made durable by a directory sync: a crash may bring any of them back. */
  datatype Disk = Disk(temporary: File, primary: File, unsettled: set<File>, backup: File)

  const BlankDisk: Disk := Disk(Absent, Absent, {}, Absent)

  /** What opening reads: the primary, failing that the backup, failing both a fresh state. */
  function ReadFiles(primary: File, backup: File): Result<State, StoreError> {
    if primary.Whole? then Ok(primary.state)
    else if backup.Whole? then Ok(backup.state)
    else if primary.Absent? && backup.Absent? then Ok(Initial)
    else Err(Corrupt)
  }

  function Read(d: Disk): Result<State, StoreError> {
    ReadFiles(d.primary, d.backup)
  }

  function Versions(d: Disk): set<File> {
    d.unsettled + {d.primary}
  }

  /** Everything opening could read after a crash, with renames lost or kept. */
  ghost function Outcomes(d: Disk): set<Result<State, StoreError>> {
    set p | p in Versions(d) :: ReadFiles(p, d.backup)
  }

  /** An open store keeps a readable copy: the primary, or the backup it recovered from. */
  predicate Guarded(d: Disk, recovered: bool) {
    if recovered then d.backup.Whole?
    else d.primary.Whole? || (d.primary.Absent? && d.backup.Absent?)
  }

  predicate ValidFile(f: File) {
    f.Whole? ==> ValidState(f.state)
  }

  predicate ValidDisk(d: Disk) {
    ValidFile(d.backup) && forall f :: f in Versions(d) ==> ValidFile(f)
  }

  // ----- the steps of a publication ---------------------------------------

  /** A commit saves the primary first, unless there is none or the backup is what was read. */
  predicate Copies(d: Disk, recovered: bool) {
    !d.primary.Absent? && !recovered
  }

  predicate Staging(before: Disk, saves: bool, d: Disk) {
    d.primary == before.primary && d.unsettled == before.unsettled &&
    (d.backup == before.backup || (saves && d.backup in {Torn, before.primary}))
  }

  predicate Published(before: Disk, saves: bool, candidate: State, d: Disk) {
    d.primary == Whole(candidate) && (d.unsettled == before.unsettled + {before.primary} || d.unsettled == {}) &&
    d.backup == (if saves then before.primary else before.backup)
  }

  /** The disks that exist between two file actions of publishing `candidate`, temporary file apart. */
  predicate PublicationPoint(before: Disk, saves: bool, candidate: State, d: Disk) {
    Staging(before, saves, d) || Published(before, saves, candidate, d)
  }

  /** With renames durable at once: at every point opening reads the state from before or the candidate. */
  lemma PublicationIsSafe(before: Disk, recovered: bool, saves: bool, candidate: State, d: Disk)
    requires Guarded(before, recovered) && (saves ==> Copies(before, recovered))
    requires PublicationPoint(before, saves, candidate, d)
    ensures Read(before).Ok?
    ensures Read(d) == if Published(before, saves, candidate, d) then Ok(candidate) else Read(before)
    ensures Guarded(d, recovered) && (Published(before, saves, candidate, d) ==> Guarded(d, false))
  {
  }

  lemma PublicationKeepsValid(before: Disk, saves: bool, candidate: State, d: Disk)
    requires ValidDisk(before) && ValidState(candidate) && PublicationPoint(before, saves, candidate, d)
    ensures ValidDisk(d)
  {
  }

  // ----- renames that a crash may undo ------------------------------------

  /** Copying over the backup is harmless when no crash can bring back a missing or torn primary. */
  predicate Careful(d: Disk, saves: bool) {
    saves ==> forall p :: p in d.unsettled ==> p.Whole?
  }

  lemma PublicationOutcomes(before: Disk, recovered: bool, saves: bool, candidate: State, d: Disk)
    requires Guarded(before, recovered) && (saves ==> Copies(before, recovered))
    requires PublicationPoint(before, saves, candidate, d) && Careful(before, saves)
    ensures Outcomes(d) <= Outcomes(before) + {Ok(candidate)}
  {
    forall r | r in Outcomes(d)
      ensures r in Outcomes(before) + {Ok(candidate)}
    {
      var p :| p in Versions(d) && r == ReadFiles(p, d.backup);
      if p in Versions(before) {
        assert ReadFiles(p, before.backup) in Outcomes(before);
      }
    }
  }

  /** The exact condition: no point of a publication can lose the checkpoint, for any candidate,
      if and only if it is careful. */
  lemma PublicationSafety(before: Disk, recovered: bool, saves: bool, candidate: State)
    requires Guarded(before, recovered) && (saves ==> Copies(before, recovered))
    requires Err(Corrupt) !in Outcomes(before)
    ensures (forall d :: PublicationPoint(before, saves, candidate, d) ==> Err(Corrupt) !in Outcomes(d)) <==>
            Careful(before, saves)
  {
    if Careful(before, saves) {
      forall d | PublicationPoint(before, saves, candidate, d)
        ensures Err(Corrupt) !in Outcomes(d)
      {
        PublicationOutcomes(before, recovered, saves, candidate, d);
      }
    } else {
      var p :| p in before.unsettled && !p.Whole?;
      var torn := before.(backup := Torn);
      assert PublicationPoint(before, saves, candidate, torn);
      assert p in Versions(torn) && ReadFiles(p, torn.backup) == Err(Corrupt);
    }
  }

  /** Once the directory is synced, only the candidate can be read, whatever happens next. */
  lemma SettledIsDurable(d: Disk, candidate: State)
    requires d.primary == Whole(candidate) && d.unsettled == {}
    ensures Outcomes(d) == {Ok(candidate)}
  {
    assert Versions(d) == {d.primary};
    assert ReadFiles(d.primary, d.backup) in Outcomes(d);
  }

  // ----- the file system --------------------------------------------------

  class FileSystem {
    var disk: Disk
    var locked: bool
    /** Every disk there has been: a crash can strike at each. */
    ghost var seen: set<Disk>

    constructor (disk: Disk)
      ensures this.disk == disk && !locked && seen == {disk}
    {
      this.disk := disk;
      locked := false;
      seen := {disk};
    }

    /** Creates the temporary file and writes it; any action may fail and leave it torn. */
    method WriteTemporary(content: State) returns (ok: bool)
      modifies this
      ensures locked == old(locked)
      ensures disk == old(disk).(temporary := disk.temporary)
      ensures ok ==> disk.temporary == Whole(content)
      ensures forall d :: d in seen ==> d in old(seen) || d == old(disk).(temporary := d.temporary)
    {
      ok := *;
      if !ok { return; }
      disk := disk.(temporary := Torn);
      seen := seen + {disk};
      ok := *;
      if !ok { return; }
      disk := disk.(temporary := Whole(content));
      seen := seen + {disk};
    }

    /** Copies the primary over the backup, which is torn while the copy runs. */
    method CopyToBackup() returns (ok: bool)
      modifies this
      ensures locked == old(locked)
      ensures disk == old(disk).(backup := disk.backup)
      ensures disk.backup in {old(disk).backup, Torn, old(disk).primary}
      ensures ok ==> disk.backup == disk.primary
      ensures forall d :: d in seen ==>
                d in old(seen) || (d.backup in {Torn, old(disk).primary} && d == old(disk).(backup := d.backup))
    {
      ok := *;
      if !ok { return; }
      disk := disk.(backup := Torn);
      seen := seen + {disk};
      ok := *;
      if !ok { return; }
      disk := disk.(backup := disk.primary);
      seen := seen + {disk};
    }

    /** Renames the temporary file over the primary; until a directory sync a crash may undo it. */
    method Rename() returns (ok: bool)
      modifies this
      ensures locked == old(locked)
      ensures disk == if ok then Disk(Absent, old(disk).temporary, Versions(old(disk)), old(disk).backup) else old(disk)
      ensures seen == if ok then old(seen) + {disk} else old(seen)
    {
      ok := *;
      if !ok { return; }
      disk := Disk(Absent, disk.temporary, Versions(disk), disk.backup);
      seen := seen + {disk};
    }

    method SyncDirectory() returns (ok: bool)
      modifies this
      ensures locked == old(locked)
      ensures disk == if ok then old(disk).(unsettled := {}) else old(disk)
      ensures seen == if ok then old(seen) + {disk} else old(seen)
    {
      ok := *;
      if !ok { return; }
      disk := disk.(unsettled := {});
      seen := seen + {disk};
    }

    /** Best effort: its failure is ignored. */
    method RemoveTemporary()
      modifies this
      ensures locked == old(locked)
      ensures disk == old(disk).(temporary := disk.temporary)
      ensures seen == old(seen) + {disk}
    {
      var ok: bool := *;
      if ok {
        disk := disk.(temporary := Absent);
      }
      seen := seen + {disk};
    }
  }
}
