/** What a transaction leaves in the journal, from its begin to its commit or rollback. */
module FsTransactions {
  import opened Base
  import opened Bytes
  import opened Allocators
  import opened Inodes
  import opened InodeTables
  import opened Directories
  import opened Paths
  import opened Trees
  import Journals
  import opened FsModel
  import opened FsInvariant
  import opened FsRemove
  import opened FsRemovePath
  import opened FsRuns
  import opened FsTheorems

  type Records = seq<Journals.JournalRecord>

  // ----- The record of one call -----

  /** What a call that made inode `id`, or wrote to it, has to record in transaction `t`: a creation the
      inode and its name, a write the inode, the offset and the length. Nothing else is recorded. */
  function RecordOf(fs: Fs, op: Op, r: Result<u64>, sequence: u64, t: u64, limits: Limits): Records {
    if r.Err? then []
    else if op.CreateFile? || op.CreateDirectory? || op.CreateSymlink? then
      var place := ResolveParent(fs.core.Names(), op.path, fs.core.superblock.rootInode, limits);
      if place.Err? then []
      else [Journals.JournalRecord(Journals.AllocateInode, sequence, t, r.value, 0, place.value.1, 0)]
    else if op.WriteTo? then
      [Journals.JournalRecord(Journals.WriteData, sequence, t, r.value, 0,
                              LittleEndian(op.offset, 8) + LittleEndian(|op.data| % TWO64, 8), 0)]
    else []
  }

  lemma JournaledRecord(fs: Fs, t: Journals.JournalType, target: u64, payload: seq<byte>, limits: Limits)
    requires fs.journal.active != 0 && (t == Journals.AllocateInode || t == Journals.WriteData)
    ensures var (next, j) := Journaled(fs, t, target, payload, limits);
            && next.journal.active == fs.journal.active && next.journal.nextTransaction == fs.journal.nextTransaction
            && next.journal.records == fs.journal.records + (
                 if j.Ok? then [Journals.JournalRecord(t, fs.journal.nextSequence, fs.journal.active, target, 0, payload, 0)] else [])
            && Finished(next, limits).journal == next.journal
  {
    hide Core.Touched, Core.Refreshed;
    Journals.AttemptWrites(fs.journal, Journals.OpAppend(t, target, payload), limits);
  }

  lemma CreateRecord(fs: Fs, op: Op, inodeType: InodeType, mode: u16, content: seq<byte>, symlink: text, limits: Limits)
    requires fs.core.superblock.blockSize > 0 && fs.journal.active != 0
    requires op.CreateFile? || op.CreateDirectory? || op.CreateSymlink?
    ensures var (next, r) := CreateNode(fs, op.path, inodeType, mode, content, symlink, limits);
            && next.journal.active == fs.journal.active && next.journal.nextTransaction == fs.journal.nextTransaction
            && next.journal.records == fs.journal.records + RecordOf(fs, op, r, fs.journal.nextSequence, fs.journal.active, limits)
  {
    hide MakeNode, ResolveParent, Directories.Find, Journaled, Finished;
    var names := fs.core.Names();
    var place := ResolveParent(names, op.path, names.root, limits);
    if place.Ok? {
      var (core, r) := MakeNode(fs.core, place.value.0, place.value.1, inodeType, mode, content, symlink, limits);
      if r.Ok? {
        JournaledRecord(fs.(core := core), Journals.AllocateInode, r.value, place.value.1, limits);
        var next := Journaled(fs.(core := core), Journals.AllocateInode, r.value, place.value.1, limits).0;
        var made := CreateAt(fs, place.value.0, place.value.1, inodeType, mode, content, symlink, limits);
        assert made.0.journal == next.journal;
        assert r.Ok? ==> made.0.journal == next.journal;
      assert made.0.journal.records == fs.journal.records + RecordOf(fs, op, made.1, fs.journal.nextSequence, fs.journal.active, limits);
      }
    }
  }

  lemma WriteRecord(fs: Fs, op: Op, limits: Limits)
    requires fs.core.superblock.blockSize > 0 && fs.journal.active != 0 && op.WriteTo?
    ensures var (next, r) := Write(fs, op.path, op.offset, op.data, limits);
            && next.journal.active == fs.journal.active && next.journal.nextTransaction == fs.journal.nextTransaction
            && next.journal.records == fs.journal.records + RecordOf(fs, op, r, fs.journal.nextSequence, fs.journal.active, limits)
  {
    hide WriteInode, Resolve, Journaled, Finished, LittleEndian;
    var names := fs.core.Names();
    var at := Resolve(names, op.path, names.root, true, limits);
    if at.Ok? && at.value.inode in names.inodes {
      var (core, r) := WriteInode(fs.core, at.value.inode, op.offset, op.data, limits);
      JournaledRecord(fs.(core := core), Journals.WriteData, at.value.inode,
                      LittleEndian(op.offset, 8) + LittleEndian(Wrap64(|op.data|), 8), limits);
      var next := Journaled(fs.(core := core), Journals.WriteData, at.value.inode,
                            LittleEndian(op.offset, 8) + LittleEndian(Wrap64(|op.data|), 8), limits).0;
      var made := WriteFile(fs, at.value.inode, op.offset, op.data, limits);
      assert r.Ok? ==> made.0.journal == next.journal;
      assert made.0.journal.records == fs.journal.records + RecordOf(fs, op, made.1, fs.journal.nextSequence, fs.journal.active, limits);
    }
  }

  /** A call that does not end the open transaction adds exactly its record, and none if it reports an
      error; the transaction stays the same. */
  lemma StepRecords(fs: Fs, op: Op, limits: Limits)
    requires FsInv(fs, limits) && fs.core.superblock.blockSize > 0
    requires fs.snapshot.Some? && !Closes(fs, op, limits)
    ensures var (next, r) := Step(fs, op, limits);
            && next.journal.active == fs.journal.active && next.journal.nextTransaction == fs.journal.nextTransaction
            && next.journal.records == fs.journal.records + RecordOf(fs, op, r, fs.journal.nextSequence, fs.journal.active, limits)
  {
    hide CoreInv, LegalTypes, CreateNode, Write, LinkNode, RemovePath, Rename, Resolve, ResolveParent, Finished, Journals.LogOk, Directories.Find, LittleEndian;
    match op
    case CreateFile(path, content, mode) => CreateRecord(fs, op, Regular, mode, content, [], limits);
    case CreateDirectory(path, mode) => CreateRecord(fs, op, Directory, mode, [], [], limits);
    case CreateSymlink(target, path) => CreateRecord(fs, op, SymbolicLink, 511, [], target, limits);
    case HardLink(existing, path) =>
    case WriteTo(path, offset, data) => WriteRecord(fs, op, limits);
    case RemoveAt(path, recursive) => RemovePathEffect(fs, path, recursive, limits);
    case RenameAt(source, target) =>
    case BeginTransaction =>
    case CommitTransaction =>
    case RollbackTransaction =>
    case CheckpointJournal =>
    case Reformat(options) =>
  }

  // ----- The records of a run -----

  /** The records of the calls of a run, one after the other, numbered from `sequence` on. */
  function RecordsOf(fs: Fs, ops: seq<Op>, sequence: nat, t: u64, limits: Limits): Records
    decreases |ops|
  {
    if ops == [] || fs.core.superblock.blockSize == 0 then []
    else
      var (next, r) := Step(fs, ops[0], limits);
      var first := RecordOf(fs, ops[0], r, sequence % TWO64, t, limits);
      first + RecordsOf(next, ops[1..], sequence + |first|, t, limits)
  }

  lemma SequenceIs(fs: Fs, next: Fs, limits: Limits)
    requires FsInv(next, limits) && Grown(fs, next)
    ensures next.journal.nextSequence == fs.journal.nextSequence + |next.journal.records| - |fs.journal.records| < TWO64
  {
    hide CoreInv, Journals.LogOk;
    Journals.ExtendsFirsts(fs.journal, next.journal);
  }

  lemma {:induction false} RunRecords(fs: Fs, ops: seq<Op>, limits: Limits)
    requires FsInv(fs, limits) && fs.snapshot.Some? && StaysOpen(fs, ops, limits)
    ensures var end := Run(fs, ops, limits);
            && end.journal.active == fs.journal.active && end.journal.nextTransaction == fs.journal.nextTransaction
            && end.journal.records ==
                 fs.journal.records + RecordsOf(fs, ops, fs.journal.nextSequence, fs.journal.active, limits)
    decreases |ops|
  {
    hide FsInv, Step, Grown, Closes, RecordOf;
    if ops != [] {
      InvPositive(fs, limits);
      var (next, r) := Step(fs, ops[0], limits);
      OpenStep(fs, ops[0], limits);
      StepKeepsSnapshot(fs, ops[0], limits);
      StepRecords(fs, ops[0], limits);
      SequenceIs(fs, next, limits);
      RunRecords(next, ops[1..], limits);
    }
  }

  // ----- From begin to end -----

  /** Files, names, blocks and inodes are those of `core`; the superblock counts them anew, as one more
      generation. */
  ghost predicate Recounted(core: Core, next: Core, limits: Limits) {
    && next.device == core.device && next.allocation == core.allocation && next.table == core.table && next.dirs == core.dirs
    && next.superblock == core.superblock.(
         generation := (core.superblock.generation + 1) % TWO64,
         inodeCount := |core.table.inodes| % TWO64,
         freeBlockCount := (core.allocation.count - |core.allocation.used|) % TWO64,
         freeInodeCount := if |core.table.inodes| < limits.maxInodes then limits.maxInodes - |core.table.inodes| else 0)
  }

  lemma FinishedRecounts(fs: Fs, limits: Limits)
    requires fs.core.allocation.Valid()
    ensures Recounted(fs.core, Finished(fs, limits).core, limits)
    ensures Finished(fs, limits) == fs.(core := Finished(fs, limits).core, dirty := true)
  {
    hide Allocation.FreeFrom;
    FreeCount(fs.core.allocation, 0);
    assert UsedFrom(fs.core.allocation, 0) == fs.core.allocation.used;
  }

  lemma SafeAllocation(fs: Fs, limits: Limits)
    requires Safe(fs, limits)
    ensures fs.core.allocation.Valid()
  {
    SafeParts(fs, limits);
    hide CoreInv, TreeOk, LinksOk, OwnershipOk, StillOk, Table.Valid;
    InvPieces(fs.core, limits);
  }

  /** What `end` writes to the journal at the end of a transaction begun in `fs`, given the records `done`
      in between: the begin, `done` and one record that closes it, all of one transaction number. */
  ghost predicate Sealed(fs: Fs, done: Records, t: Journals.JournalType, next: Fs) {
    var number, sequence := fs.journal.nextTransaction, fs.journal.nextSequence;
    && next.journal.records ==
         fs.journal.records
         + [Journals.JournalRecord(Journals.BeginRecord, sequence, number, 0, 0, [], 0)]
         + done
         + [Journals.JournalRecord(t, (sequence + 1 + |done|) % TWO64, number, 0, 0, [], 0)]
    && next.journal.active == 0 && next.journal.nextTransaction == number + 1
    && next.snapshot.None?
  }

  /** Begin is accepted exactly if the filesystem is writable, no transaction is open and the journal has
      room; it saves files, names and blocks as they are, and its record. */
  lemma BeginOutcome(fs: Fs, limits: Limits)
    requires FsInv(fs, limits)
    ensures Begin(fs, limits).1.Ok? <==> fs.snapshot.None? && |fs.journal.records| < limits.maxJournalRecords
    ensures var (next, r) := Begin(fs, limits);
            if r.Err? then next == fs
            else
              && next.core == fs.core && next.snapshot == Some(Saved(fs.core, fs.dirty)) && next.dirty && next.mounted && !next.readOnly
              && next.journal.active == fs.journal.nextTransaction != 0
              && next.journal.nextTransaction == fs.journal.nextTransaction + 1
              && next.journal.nextSequence == fs.journal.nextSequence + 1
              && next.journal.records == fs.journal.records +
                   [Journals.JournalRecord(Journals.BeginRecord, fs.journal.nextSequence, fs.journal.nextTransaction, 0, 0, [], 0)]
  {
    hide CoreInv, LegalTypes, Journals.LogOk;
    Journals.AttemptWrites(fs.journal, Journals.OpBegin, limits);
    NextTransaction(fs.journal, limits);
    if fs.snapshot.None? && |fs.journal.records| < limits.maxJournalRecords {
      Journals.AttemptPushes(fs.journal, Journals.OpBegin, limits);
    }
  }

  /** Commit is accepted exactly if a transaction is open and the journal has room. It keeps every file,
      name and block, gives up the snapshot, and writes a commit record of the open transaction. */
  lemma CommitOutcome(fs: Fs, limits: Limits)
    requires FsInv(fs, limits)
    ensures Commit(fs, limits).1.Ok? <==> fs.snapshot.Some? && |fs.journal.records| < limits.maxJournalRecords
    ensures var (next, r) := Commit(fs, limits);
            if r.Err? then next == fs
            else
              && Recounted(fs.core, next.core, limits) && next.snapshot.None? && next.dirty && next.mounted && !next.readOnly
              && next.journal.active == 0 && next.journal.nextTransaction == fs.journal.nextTransaction
              && next.journal.records == fs.journal.records +
                   [Journals.JournalRecord(Journals.CommitRecord, fs.journal.nextSequence, fs.journal.active, 0, 0, [], 0)]
  {
    hide CoreInv, LegalTypes, Journals.LogOk, Recounted, Allocation.Valid, Finished;
    Journals.AttemptWrites(fs.journal, Journals.OpCommit, limits);
    if fs.snapshot.Some? && |fs.journal.records| < limits.maxJournalRecords {
      SafeAllocation(fs, limits);
      FinishedRecounts(fs.(journal := fs.journal.Commit(limits).value, snapshot := None), limits);
    }
  }

  /** Rollback is accepted under the same condition. It puts files, names and blocks back as the begin
      saved them, and writes a rollback record of the open transaction. */
  lemma RollbackOutcome(fs: Fs, limits: Limits)
    requires FsInv(fs, limits)
    ensures Rollback(fs, limits).1.Ok? <==> fs.snapshot.Some? && |fs.journal.records| < limits.maxJournalRecords
    ensures var (next, r) := Rollback(fs, limits);
            if r.Err? then next == fs
            else
              && fs.snapshot == Some(Saved(next.core, next.dirty)) && next.snapshot.None? && next.mounted && !next.readOnly
              && next.journal.active == 0 && next.journal.nextTransaction == fs.journal.nextTransaction
              && next.journal.records == fs.journal.records +
                   [Journals.JournalRecord(Journals.RollbackRecord, fs.journal.nextSequence, fs.journal.active, 0, 0, [], 0)]
  {
    hide CoreInv, LegalTypes, Journals.LogOk;
    Journals.AttemptWrites(fs.journal, Journals.OpRollback, limits);
  }

  /** A transaction from begin to commit. The commit succeeds exactly if the journal has room for one more
      record. It keeps every file, name and block the calls since the begin left, gives up the snapshot,
      and the journal ends with the begin, the record of each creation and write that succeeded, and a
      commit record, all of the transaction begun. */
  lemma CommitSeals(fs: Fs, ops: seq<Op>, limits: Limits)
    requires FsInv(fs, limits) && Begin(fs, limits).1.Ok?
    requires StaysOpen(Begin(fs, limits).0, ops, limits)
    ensures var begun := Begin(fs, limits).0;
            var end := Run(begun, ops, limits);
            var (next, r) := Commit(end, limits);
            && (r.Ok? <==> |end.journal.records| < limits.maxJournalRecords)
            && if r.Err? then next == end
               else
                 && Sealed(fs, RecordsOf(begun, ops, fs.journal.nextSequence + 1, fs.journal.nextTransaction, limits),
                           Journals.CommitRecord, next)
                 && Recounted(end.core, next.core, limits) && next.dirty
  {
    hide FsInv, Begin, Run, StaysOpen, RecordsOf, Recounted, Commit;
    UpToTheEnd(fs, ops, limits);
    CommitOutcome(Run(Begin(fs, limits).0, ops, limits), limits);
  }

  /** The same up to a rollback: files, names and blocks are those of the begin, and the journal ends with
      a rollback record of the transaction begun. */
  lemma RollbackSeals(fs: Fs, ops: seq<Op>, limits: Limits)
    requires FsInv(fs, limits) && Begin(fs, limits).1.Ok?
    requires StaysOpen(Begin(fs, limits).0, ops, limits)
    ensures var begun := Begin(fs, limits).0;
            var end := Run(begun, ops, limits);
            var (next, r) := Rollback(end, limits);
            && (r.Ok? <==> |end.journal.records| < limits.maxJournalRecords)
            && if r.Err? then next == end
               else
                 && Sealed(fs, RecordsOf(begun, ops, fs.journal.nextSequence + 1, fs.journal.nextTransaction, limits),
                           Journals.RollbackRecord, next)
                 && next.core == fs.core && next.dirty == fs.dirty
  {
    hide FsInv, Begin, Run, StaysOpen, RecordsOf, Rollback;
    UpToTheEnd(fs, ops, limits);
    RollbackOutcome(Run(Begin(fs, limits).0, ops, limits), limits);
  }

  /** The state at the end of the transaction, before it is closed. */
  lemma UpToTheEnd(fs: Fs, ops: seq<Op>, limits: Limits)
    requires FsInv(fs, limits) && Begin(fs, limits).1.Ok?
    requires StaysOpen(Begin(fs, limits).0, ops, limits)
    ensures var begun := Begin(fs, limits).0;
            var end := Run(begun, ops, limits);
            var done := RecordsOf(begun, ops, fs.journal.nextSequence + 1, fs.journal.nextTransaction, limits);
            && FsInv(end, limits) && end.snapshot == Some(Saved(fs.core, fs.dirty)) && end.journal.active == fs.journal.nextTransaction != 0
            && end.journal.nextTransaction == fs.journal.nextTransaction + 1
            && end.journal.nextSequence == fs.journal.nextSequence + 1 + |done| < TWO64
            && end.journal.records ==
                 fs.journal.records
                 + [Journals.JournalRecord(Journals.BeginRecord, fs.journal.nextSequence, fs.journal.nextTransaction, 0, 0, [], 0)]
                 + done
  {
    hide FsInv, Safe, Upheld, Begin, Run, StaysOpen, Grown, RecordsOf, Journals.LogOk, LegalTypes;
    var begun := Begin(fs, limits).0;
    MountedInv(fs, limits);
    BeginStep(fs, limits);
    UpheldInv(fs, begun, limits);
    BeginOutcome(fs, limits);
    RunKeepsSnapshot(begun, ops, limits);
    RunRecords(begun, ops, limits);
    var end := Run(begun, ops, limits);
    MountedInv(end, limits);
    SequenceIs(begun, end, limits);
  }

  /** Checkpoint is accepted exactly if the filesystem is writable, no transaction is open and the journal
      has room; it changes nothing but the journal, the dirty flag and the sequence number that the
      superblock keeps, which is that of its record. */
  lemma CheckpointOutcome(fs: Fs, limits: Limits)
    requires FsInv(fs, limits)
    ensures Checkpoint(fs, limits).1.Ok? <==> fs.snapshot.None? && |fs.journal.records| < limits.maxJournalRecords
    ensures var (next, r) := Checkpoint(fs, limits);
            if r.Err? then next == fs
            else
              && next.core == fs.core.(superblock := fs.core.superblock.(journalSequence := fs.journal.nextSequence))
              && next.snapshot.None? && !next.dirty && next.mounted && !next.readOnly && next.journal.active == 0
              && next.journal.records == fs.journal.records +
                   [Journals.JournalRecord(Journals.CheckpointRecord, fs.journal.nextSequence, 0, 0, 0, [], 0)]
  {
    hide CoreInv, LegalTypes, Journals.LogOk;
    Journals.AttemptWrites(fs.journal, Journals.OpCheckpoint, limits);
    if fs.snapshot.None? && |fs.journal.records| < limits.maxJournalRecords {
      Journals.AttemptPushes(fs.journal, Journals.OpCheckpoint, limits);
    }
  }
}
