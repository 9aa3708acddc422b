/** What a clean report means, exactly, and which states of a run get one. */
module CheckerTheorems {
  import opened Base
  import opened Devices
  import opened Allocators
  import opened Extents
  import opened Inodes
  import opened InodeTables
  import opened Directories
  import opened Paths
  import opened Trees
  import opened FileData
  import opened FileBytes
  import opened FileGrowth
  import opened FileWrites
  import Journals
  import opened FsModel
  import opened FsInvariant
  import opened FsCreate
  import opened FsRemove
  import opened FsRemovePath
  import opened FsNodes
  import opened FsRuns
  import opened FsTheorems
  import opened Validity
  import opened Checkers

  lemma CleanConcat(a: Report, b: Report)
    ensures Clean(a + b) <==> Clean(a) && Clean(b)
  {
    if Clean(a + b) {
      forall i | 0 <= i < |a| ensures !a[i].Serious() {
        assert (a + b)[i] == a[i];
      }
      forall i | 0 <= i < |b| ensures !b[i].Serious() {
        assert (a + b)[|a| + i] == b[i];
      }
    }
  }

  lemma CleanWhen(condition: bool, issue: Issue)
    ensures Clean(When(condition, issue)) <==> !(condition && issue.Serious())
  {
    if condition {
      assert When(condition, issue)[0] == issue;
    }
  }

  // ----- Tables -----

  /** An active entry that is valid and leads to an inode of its type. */
  predicate EntrySound(e: DirectoryEntry, inodes: map<u64, Inode>, limits: Limits) {
    e.deleted || (e.Validate(limits).Ok? && e.inode in inodes && inodes[e.inode].inodeType == e.entryType)
  }

  ghost predicate TableSound(entries: Entries, inodes: map<u64, Inode>, limits: Limits) {
    (forall i :: 0 <= i < |entries| ==> EntrySound(entries[i], inodes, limits)) && UniqueNames(entries)
  }

  lemma EntryClean(e: DirectoryEntry, names: set<text>, inodes: map<u64, Inode>, limits: Limits)
    requires !e.deleted
    ensures Clean(EntryIssues(e, names, inodes, limits)) <==> EntrySound(e, inodes, limits) && e.Key() !in names
  {
    hide DirectoryEntry.Validate, NormalizeName;
    var repeated := Issue(Error, InvalidDirectoryEntry, e.inode, 0);
    if e.Validate(limits).Ok? {
      CleanWhen(e.Key() in names, repeated);
      var missing := Issue(Error, MissingInode, e.inode, 0);
      if e.inode in inodes {
        CleanWhen(inodes[e.inode].inodeType != e.entryType, repeated);
        CleanConcat(When(e.Key() in names, repeated), When(inodes[e.inode].inodeType != e.entryType, repeated));
      } else {
        assert [missing][0].Serious();
        CleanConcat(When(e.Key() in names, repeated), [missing]);
      }
    } else {
      assert EntryIssues(e, names, inodes, limits)[0].Serious();
    }
  }

  /** The names of a table, none of them among those already seen. */
  ghost predicate NewNames(entries: Entries, names: set<text>) {
    forall i :: 0 <= i < |entries| && !entries[i].deleted ==> entries[i].Key() !in names
  }

  lemma UniqueSplit(entries: Entries)
    requires entries != []
    ensures UniqueNames(entries) <==>
            UniqueNames(entries[1..]) && (!entries[0].deleted ==> NewNames(entries[1..], {entries[0].Key()}))
  {
    var rest := entries[1..];
    assert forall i :: 0 <= i < |rest| ==> rest[i] == entries[i + 1];
    if UniqueNames(entries) && !entries[0].deleted {
      forall i | 0 <= i < |rest| && !rest[i].deleted ensures rest[i].Key() !in {entries[0].Key()} {
        assert entries[0].Key() != entries[i + 1].Key();
      }
    }
    if UniqueNames(rest) && (!entries[0].deleted ==> NewNames(rest, {entries[0].Key()})) {
      forall i, j | 0 <= i < j < |entries| && !entries[i].deleted && !entries[j].deleted ensures entries[i].Key() != entries[j].Key() {
        assert entries[j] == rest[j - 1];
        assert i > 0 ==> entries[i] == rest[i - 1];
      }
    }
  }

  lemma NewNamesSplit(entries: Entries, names: set<text>)
    requires entries != []
    ensures NewNames(entries, names) <==> (!entries[0].deleted ==> entries[0].Key() !in names) && NewNames(entries[1..], names)
    ensures forall key :: NewNames(entries[1..], names + {key}) <==> NewNames(entries[1..], names) && NewNames(entries[1..], {key})
  {
    hide NormalizeName;
    var rest := entries[1..];
    assert entries == [entries[0]] + rest;
    assert forall i :: 0 <= i < |rest| ==> rest[i] == entries[i + 1];
  }

  lemma SoundSplit(entries: Entries, inodes: map<u64, Inode>, limits: Limits)
    requires entries != []
    ensures TableSound(entries, inodes, limits) <==>
            EntrySound(entries[0], inodes, limits) && TableSound(entries[1..], inodes, limits)
            && (!entries[0].deleted ==> NewNames(entries[1..], {entries[0].Key()}))
  {
    hide EntrySound, UniqueNames, NewNames;
    UniqueSplit(entries);
    assert entries == [entries[0]] + entries[1..];
    assert forall i :: 0 <= i < |entries[1..]| ==> entries[1..][i] == entries[i + 1];
  }

  lemma {:induction false} TableClean(entries: Entries, names: set<text>, inodes: map<u64, Inode>, limits: Limits)
    ensures Clean(TableIssues(entries, names, inodes, limits)) <==> TableSound(entries, inodes, limits) && NewNames(entries, names)
    decreases |entries|
  {
    hide Clean, TableSound, NewNames, EntryIssues, EntrySound, DirectoryEntry.Validate;
    if entries == [] {
      EmptyTable(names, inodes, limits);
    } else {
      var e, rest := entries[0], entries[1..];
      SoundSplit(entries, inodes, limits);
      NewNamesSplit(entries, names);
      if e.deleted {
        TableClean(rest, names, inodes, limits);
        DeletedSound(e, inodes, limits);
      } else {
        var seen := if e.Validate(limits).Ok? then names + {e.Key()} else names;
        EntryClean(e, names, inodes, limits);
        TableClean(rest, seen, inodes, limits);
        CleanConcat(EntryIssues(e, names, inodes, limits), TableIssues(rest, seen, inodes, limits));
        SoundValid(e, inodes, limits);
      }
    }
  }

  lemma EmptyTable(names: set<text>, inodes: map<u64, Inode>, limits: Limits)
    ensures Clean([]) && TableSound([], inodes, limits) && NewNames([], names)
  {
  }

  lemma DeletedSound(e: DirectoryEntry, inodes: map<u64, Inode>, limits: Limits)
    requires e.deleted
    ensures EntrySound(e, inodes, limits)
  {
  }

  lemma SoundValid(e: DirectoryEntry, inodes: map<u64, Inode>, limits: Limits)
    requires !e.deleted
    ensures EntrySound(e, inodes, limits) ==> e.Validate(limits).Ok?
  {
  }

  lemma {:induction false} DirectoriesClean(dirs: Dirs, keys: seq<u64>, inodes: map<u64, Inode>, limits: Limits)
    requires forall k :: k in keys ==> k in dirs
    ensures Clean(DirectoryIssues(dirs, keys, inodes, limits)) <==>
            forall k :: k in keys ==> HasDirectoryInode(k, inodes) && TableSound(dirs[k], inodes, limits)
    decreases |keys|
  {
    hide TableSound, TableIssues, HasDirectoryInode, NewNames;
    if keys != [] {
      var k := keys[0];
      assert keys == [k] + keys[1..];
      DirectoriesClean(dirs, keys[1..], inodes, limits);
      var missing := [Issue(Error, MissingInode, k, 0)];
      assert missing[0].Serious() && !Clean(missing);
      TableClean(dirs[k], {}, inodes, limits);
      NothingSeen(dirs[k]);
      CleanConcat(if HasDirectoryInode(k, inodes) then TableIssues(dirs[k], {}, inodes, limits) else missing,
                  DirectoryIssues(dirs, keys[1..], inodes, limits));
    }
  }

  lemma NothingSeen(entries: Entries)
    ensures NewNames(entries, {})
  {
  }

  // ----- Blocks -----

  lemma {:induction false} BlocksClean(keys: seq<u64>, id: u64, referenced: set<u64>, used: set<u64>)
    requires Increasing(keys)
    ensures Clean(BlockIssues(keys, id, referenced, used)) <==> forall b :: b in keys ==> b !in referenced && b in used
    decreases |keys|
  {
    hide Clean;
    if keys == [] {
      NothingIsClean();
    } else {
      var b, rest := keys[0], keys[1..];
      assert keys == [b] + rest;
      var twice := When(b in referenced, Issue(Fatal, DuplicateBlock, id, b));
      var unmarked := When(b !in used, Issue(Error, BlockBitmapMismatch, id, b));
      CleanWhen(b in referenced, Issue(Fatal, DuplicateBlock, id, b));
      CleanWhen(b !in used, Issue(Error, BlockBitmapMismatch, id, b));
      BlocksClean(rest, id, referenced + {b}, used);
      CleanConcat(twice, unmarked);
      CleanConcat(twice + unmarked, BlockIssues(rest, id, referenced + {b}, used));
      assert forall x :: x in rest ==> x != b;
    }
  }

  lemma NothingIsClean()
    ensures Clean([])
  {
  }

  // ----- Inodes -----

  /** An inode that validates and takes no block twice, all its blocks marked and not taken before. */
  ghost predicate InodeSound(inode: Inode, superblock: Superblock, referenced: set<u64>, used: set<u64>, limits: Limits)
    requires superblock.blockSize > 0
  {
    && inode.Validate(superblock, limits).Ok? && PhysicallyDisjoint(inode.extents)
    && forall b: u64 :: b in Owned(inode.extents) ==> b !in referenced && b in used
  }

  lemma ValidExtents(inode: Inode, superblock: Superblock, limits: Limits)
    requires superblock.blockSize > 0 && inode.Validate(superblock, limits).Ok?
    ensures VerifyExtents(inode.extents, inode.size, inode.allocatedBytes, superblock, limits).Ok?
    ensures PhysicalBlocks(inode, superblock, limits).Ok? <==> PhysicallyDisjoint(inode.extents)
    ensures PhysicallyDisjoint(inode.extents) ==> PhysicalBlocks(inode, superblock, limits) == Ok(Owned(inode.extents))
  {
    hide AttributesFit, PhysicallyDisjoint, Owned;
    assert VerifyExtents(inode.extents, inode.size, inode.allocatedBytes, superblock, limits).Ok?;
    hide VerifyExtents;
  }

  lemma NamesAreWarnings(inode: Inode, observed: nat, named: bool, root: u64, limits: Limits)
    ensures Clean(NameIssues(inode, observed, named, root, limits))
  {
    hide NormalizePath;
  }

  lemma InodeClean(core: Core, inode: Inode, referenced: set<u64>, limits: Limits)
    requires core.superblock.blockSize > 0
    ensures Clean(InodeIssues(core, inode, referenced, limits)) <==>
            InodeSound(inode, core.superblock, referenced, core.allocation.used, limits)
  {
    hide Clean, ObservedIn, NamedIn, Inode.Validate, PhysicalBlocks, PhysicallyDisjoint, Owned, SortedKeys, NameIssues;
    var keys := SortedKeys(core.dirs.Keys);
    var a := ValidationIssues(inode, core.superblock, limits);
    var b := PhysicalIssues(inode, core.superblock, referenced, core.allocation.used, limits);
    var c := NameIssues(inode, ObservedIn(core.dirs, keys, core.table.inodes, inode.identifier),
                        NamedIn(core.dirs, keys, core.table.inodes, inode.identifier), core.superblock.rootInode, limits);
    CleanConcat(a, b);
    CleanConcat(a + b, c);
    NamesAreWarnings(inode, ObservedIn(core.dirs, keys, core.table.inodes, inode.identifier),
                     NamedIn(core.dirs, keys, core.table.inodes, inode.identifier), core.superblock.rootInode, limits);
    ValidationClean(inode, core.superblock, limits);
    hide ValidationIssues, PhysicalIssues;
    if inode.Validate(core.superblock, limits).Ok? {
      PhysicalClean(inode, core.superblock, referenced, core.allocation.used, limits);
    }
  }

  lemma ValidationClean(inode: Inode, superblock: Superblock, limits: Limits)
    requires superblock.blockSize > 0
    ensures Clean(ValidationIssues(inode, superblock, limits)) <==> inode.Validate(superblock, limits).Ok?
  {
    hide Inode.Validate;
    if inode.Validate(superblock, limits).Err? {
      assert ValidationIssues(inode, superblock, limits)[0].Serious();
    }
  }

  lemma PhysicalClean(inode: Inode, superblock: Superblock, referenced: set<u64>, used: set<u64>, limits: Limits)
    requires superblock.blockSize > 0 && inode.Validate(superblock, limits).Ok?
    ensures Clean(PhysicalIssues(inode, superblock, referenced, used, limits)) <==>
            PhysicallyDisjoint(inode.extents) && forall b: u64 :: b in Owned(inode.extents) ==> b !in referenced && b in used
  {
    ValidExtents(inode, superblock, limits);
    hide PhysicalBlocks, Inode.Validate, PhysicallyDisjoint, Owned, BlockIssues, SortedKeys;
    if PhysicallyDisjoint(inode.extents) {
      BlocksClean(BlockKeys(Owned(inode.extents)), inode.identifier, referenced, used);
    } else {
      assert PhysicalIssues(inode, superblock, referenced, used, limits)[0].Serious();
    }
  }

  /** The inodes under the keys are sound one after the other, each against the blocks before it. */
  ghost predicate AllSound(core: Core, keys: seq<u64>, referenced: set<u64>, limits: Limits)
    requires core.superblock.blockSize > 0 && forall k :: k in keys ==> k in core.table.inodes
  {
    && (forall k :: k in keys ==> InodeSound(core.table.inodes[k], core.superblock, referenced, core.allocation.used, limits))
    && (forall i, j :: 0 <= i < j < |keys| ==>
          Owned(core.table.inodes[keys[i]].extents) !! Owned(core.table.inodes[keys[j]].extents))
  }

  lemma ReferencedIs(inode: Inode, superblock: Superblock, referenced: set<u64>, limits: Limits)
    requires superblock.blockSize > 0 && inode.Validate(superblock, limits).Ok? && PhysicallyDisjoint(inode.extents)
    ensures forall b: u64 :: b in Referenced(inode, superblock, referenced, limits) <==> b in referenced || b in Owned(inode.extents)
  {
    ValidExtents(inode, superblock, limits);
    hide PhysicalBlocks, Inode.Validate, PhysicallyDisjoint, Owned;
  }

  /** Blocks of a valid inode are 64-bit numbers. */
  lemma OwnedWords(inode: Inode, superblock: Superblock, limits: Limits, b: int)
    requires superblock.blockSize > 0 && inode.Validate(superblock, limits).Ok? && b in Owned(inode.extents)
    ensures 0 <= b < superblock.blockCount
  {
    ValidExtents(inode, superblock, limits);
    NormalizeSucceedsIff(limits, inode.extents, superblock.blockCount);
    OwnedInRange(inode.extents, superblock.blockCount, b);
  }

  lemma FirstSound(core: Core, keys: seq<u64>, referenced: set<u64>, limits: Limits)
    requires core.superblock.blockSize > 0 && keys != [] && forall k :: k in keys ==> k in core.table.inodes
    requires InodeSound(core.table.inodes[keys[0]], core.superblock, referenced, core.allocation.used, limits)
    ensures AllSound(core, keys, referenced, limits) <==>
            AllSound(core, keys[1..], Referenced(core.table.inodes[keys[0]], core.superblock, referenced, limits), limits)
  {
    var first, rest := core.table.inodes[keys[0]], keys[1..];
    assert keys == [keys[0]] + rest;
    hide PhysicalBlocks, Inode.Validate, PhysicallyDisjoint, Owned;
    ReferencedIs(first, core.superblock, referenced, limits);
    var grown := Referenced(first, core.superblock, referenced, limits);
    hide Referenced;
    if AllSound(core, keys, referenced, limits) {
      forall k | k in rest ensures InodeSound(core.table.inodes[k], core.superblock, grown, core.allocation.used, limits) {
        var j :| 0 <= j < |rest| && rest[j] == k;
        assert keys[j + 1] == k;
        assert Owned(core.table.inodes[keys[0]].extents) !! Owned(core.table.inodes[keys[j + 1]].extents);
        assert InodeSound(core.table.inodes[k], core.superblock, referenced, core.allocation.used, limits);
      }
      forall i, j | 0 <= i < j < |rest| ensures Owned(core.table.inodes[rest[i]].extents) !! Owned(core.table.inodes[rest[j]].extents) {
        assert rest[i] == keys[i + 1] && rest[j] == keys[j + 1];
      }
    }
    if AllSound(core, rest, grown, limits) {
      RestSound(core, keys, referenced, grown, limits);
    }
  }

  lemma RestSound(core: Core, keys: seq<u64>, referenced: set<u64>, grown: set<u64>, limits: Limits)
    requires core.superblock.blockSize > 0 && keys != [] && forall k :: k in keys ==> k in core.table.inodes
    requires InodeSound(core.table.inodes[keys[0]], core.superblock, referenced, core.allocation.used, limits)
    requires AllSound(core, keys[1..], grown, limits)
    requires forall b: u64 :: b in grown <==> b in referenced || b in Owned(core.table.inodes[keys[0]].extents)
    ensures AllSound(core, keys, referenced, limits)
  {
    var first, rest := core.table.inodes[keys[0]], keys[1..];
    assert keys == [keys[0]] + rest;
    hide Inode.Validate, PhysicallyDisjoint, Owned;
    forall k | k in keys ensures InodeSound(core.table.inodes[k], core.superblock, referenced, core.allocation.used, limits) {
      if k in rest {
        assert InodeSound(core.table.inodes[k], core.superblock, grown, core.allocation.used, limits);
      }
    }
    forall i, j | 0 <= i < j < |keys| ensures Owned(core.table.inodes[keys[i]].extents) !! Owned(core.table.inodes[keys[j]].extents) {
      assert keys[j] == rest[j - 1];
      if i == 0 {
        assert InodeSound(core.table.inodes[rest[j - 1]], core.superblock, grown, core.allocation.used, limits);
        forall b: int | b in Owned(first.extents) ensures b !in Owned(core.table.inodes[keys[j]].extents) {
          OwnedWords(first, core.superblock, limits, b);
        }
      } else {
        assert keys[i] == rest[i - 1];
      }
    }
  }

  lemma {:induction false} InodesClean(core: Core, keys: seq<u64>, referenced: set<u64>, limits: Limits)
    requires core.superblock.blockSize > 0 && forall k :: k in keys ==> k in core.table.inodes
    ensures Clean(InodesIssues(core, keys, referenced, limits)) <==> AllSound(core, keys, referenced, limits)
    decreases |keys|
  {
    hide Clean, InodeIssues, InodeSound, Owned, Referenced;
    if keys == [] {
      NothingIsClean();
    } else {
      var inode := core.table.inodes[keys[0]];
      var grown := Referenced(inode, core.superblock, referenced, limits);
      InodeClean(core, inode, referenced, limits);
      InodesClean(core, keys[1..], grown, limits);
      CleanConcat(InodeIssues(core, inode, referenced, limits), InodesIssues(core, keys[1..], grown, limits));
      if InodeSound(inode, core.superblock, referenced, core.allocation.used, limits) {
        FirstSound(core, keys, referenced, limits);
      }
    }
  }

  // ----- Journal -----

  /** Sequences grow, and every record belongs to a transaction that has begun and not ended. */
  predicate JournalSound(records: seq<Journals.JournalRecord>, previous: u64, active: set<u64>)
    decreases |records|
  {
    records == []
    || (records[0].sequence > previous
        && (records[0].recordType == Journals.BeginRecord ==> records[0].transaction !in active)
        && (records[0].recordType != Journals.BeginRecord && records[0].recordType != Journals.CheckpointRecord ==>
              records[0].transaction in active)
        && JournalSound(records[1..], records[0].sequence, ActiveAfter(records[0], active)))
  }

  lemma RecordClean(record: Journals.JournalRecord, previous: u64, active: set<u64>)
    ensures Clean(RecordIssues(record, previous, active)) <==>
            && record.sequence > previous
            && (record.recordType == Journals.BeginRecord ==> record.transaction !in active)
            && (record.recordType != Journals.BeginRecord && record.recordType != Journals.CheckpointRecord ==>
                  record.transaction in active)
  {
    var late := Issue(Error, JournalSequence, 0, 0);
    var stray := Issue(Error, JournalTransaction, 0, 0);
    CleanWhen(record.sequence <= previous, late);
    CleanWhen(record.transaction in active, stray);
    CleanWhen(record.transaction !in active, stray);
    NothingIsClean();
    var second := match record.recordType
      case BeginRecord => When(record.transaction in active, stray)
      case CheckpointRecord => []
      case _ => When(record.transaction !in active, stray);
    CleanConcat(When(record.sequence <= previous, late), second);
    hide Clean, When;
  }

  lemma {:induction false} JournalClean(records: seq<Journals.JournalRecord>, previous: u64, active: set<u64>)
    ensures Clean(JournalIssues(records, previous, active)) <==> JournalSound(records, previous, active)
    decreases |records|
  {
    hide RecordIssues, ActiveAfter, SortedKeys;
    if records != [] {
      RecordClean(records[0], previous, active);
      var after := ActiveAfter(records[0], active);
      JournalClean(records[1..], records[0].sequence, after);
      CleanConcat(RecordIssues(records[0], previous, active), JournalIssues(records[1..], records[0].sequence, after));
    }
  }

  function OpenSet(transaction: u64): set<u64> {
    if transaction == 0 then {} else {transaction}
  }

  /** Properly bracketed journals are sound. */
  lemma {:induction false} BracketedSound(records: seq<Journals.JournalRecord>, open: u64, end: u64, previous: u64)
    requires Journals.Bracketed(records, open, end) && Journals.Ascending(records, previous)
    ensures JournalSound(records, previous, OpenSet(open))
    decreases |records|
  {
    hide Journals.Ascending;
    if records != [] {
      var r, rest := records[0], records[1..];
      Journals.AscendingRest(records, previous);
      match r.recordType
      case BeginRecord =>
        BracketedSound(rest, r.transaction, end, r.sequence);
        assert OpenSet(open) + {r.transaction} == OpenSet(r.transaction);
      case CommitRecord =>
        BracketedSound(rest, 0, end, r.sequence);
        assert OpenSet(open) - {r.transaction} == {};
      case RollbackRecord =>
        BracketedSound(rest, 0, end, r.sequence);
        assert OpenSet(open) - {r.transaction} == {};
      case _ => BracketedSound(rest, open, end, r.sequence);
    }
  }

  lemma LogSound(log: Journals.Log, limits: Limits)
    requires Journals.LogOk(log, limits)
    ensures JournalSound(log.records, 0, {})
  {
    hide Journals.LogOk, Journals.Ascending, Journals.Bracketed;
    Journals.LogOrdered(log, limits);
    BracketedSound(log.records, 0, log.active, 0);
  }

  // ----- Allocated but not referenced -----

  lemma {:induction false} UnreferencedMeans(a: Allocation, referenced: set<u64>, from: nat, block: u64)
    ensures Issue(Warning, UnreferencedBlock, 0, block) in UnreferencedIssues(a, referenced, from) <==>
            from <= block < a.count && block in a.used && block != 0 && block !in referenced
    decreases a.count - from
  {
    if from < a.count {
      UnreferencedMeans(a, referenced, from + 1, block);
    }
  }

  lemma {:induction false} UnreferencedClean(a: Allocation, referenced: set<u64>, from: nat)
    ensures Clean(UnreferencedIssues(a, referenced, from))
    decreases a.count - from
  {
    if from < a.count {
      UnreferencedClean(a, referenced, from + 1);
      CleanWhen(from in a.used && from != 0 && from !in referenced, Issue(Warning, UnreferencedBlock, 0, from));
      CleanConcat(When(from in a.used && from != 0 && from !in referenced, Issue(Warning, UnreferencedBlock, 0, from)),
                  UnreferencedIssues(a, referenced, from + 1));
    }
  }

  // ----- The whole check -----

  /** What a clean report stands for. */
  ghost predicate SoundState(core: Core, journal: Journals.Log, limits: Limits) {
    && SuperblockSound(core.superblock, limits) && core.superblock.blockSize > 0
    && (forall d :: d in core.dirs ==>
          HasDirectoryInode(d, core.table.inodes) && TableSound(core.dirs[d], core.table.inodes, limits))
    && (forall id :: id in core.table.inodes ==>
          InodeSound(core.table.inodes[id], core.superblock, {}, core.allocation.used, limits))
    && (forall a, b :: a in core.table.inodes && b in core.table.inodes && a != b ==>
          Owned(core.table.inodes[a].extents) !! Owned(core.table.inodes[b].extents))
    && JournalSound(journal.records, 0, {})
  }

  lemma AllKeysSound(core: Core, limits: Limits)
    requires core.superblock.blockSize > 0
    ensures AllSound(core, SortedKeys(core.table.inodes.Keys), {}, limits) <==>
            && (forall id :: id in core.table.inodes ==>
                  InodeSound(core.table.inodes[id], core.superblock, {}, core.allocation.used, limits))
            && (forall a, b :: a in core.table.inodes && b in core.table.inodes && a != b ==>
                  Owned(core.table.inodes[a].extents) !! Owned(core.table.inodes[b].extents))
  {
    hide InodeSound, Owned;
    var keys := SortedKeys(core.table.inodes.Keys);
    hide SortedKeys;
    if AllSound(core, keys, {}, limits) {
      forall a, b | a in core.table.inodes && b in core.table.inodes && a != b
        ensures Owned(core.table.inodes[a].extents) !! Owned(core.table.inodes[b].extents)
      {
        assert a in keys && b in keys;
        var i :| 0 <= i < |keys| && keys[i] == a;
        var j :| 0 <= j < |keys| && keys[j] == b;
        assert i != j;
      }
    }
    forall i, j | 0 <= i < j < |keys| ensures keys[i] != keys[j] {
    }
  }

  lemma AllTablesSound(dirs: Dirs, inodes: map<u64, Inode>, limits: Limits)
    ensures Clean(DirectoryIssues(dirs, SortedKeys(dirs.Keys), inodes, limits)) <==>
            forall d :: d in dirs ==> HasDirectoryInode(d, inodes) && TableSound(dirs[d], inodes, limits)
  {
    hide TableSound, HasDirectoryInode, DirectoryIssues, Clean;
    DirectoriesClean(dirs, SortedKeys(dirs.Keys), inodes, limits);
  }

  /** A report is clean if and only if the superblock validates, every active entry is valid, unique by
      lower-cased name and leads to an inode of its type, every inode validates, every referenced block
      is marked and has one owner, and the journal is in order. */
  lemma CleanIffSound(core: Core, journal: Journals.Log, limits: Limits)
    ensures Clean(Check(core, journal, limits)) <==> SoundState(core, journal, limits)
  {
    hide Clean, InodeSound, TableSound, HasDirectoryInode, DirectoryIssues, InodesIssues, UnreferencedIssues, JournalIssues, ReferencedBy, SortedKeys, AllSound, Owned, JournalSound, SuperblockSound;
    if SuperblockSound(core.superblock, limits) {
      SoundBlockSize(core.superblock, limits);
      var keys := SortedKeys(core.table.inodes.Keys);
      var a := DirectoryIssues(core.dirs, SortedKeys(core.dirs.Keys), core.table.inodes, limits);
      var b := InodesIssues(core, keys, {}, limits);
      var c := UnreferencedIssues(core.allocation, ReferencedBy(core, keys, {}, limits), 0);
      var d := JournalIssues(journal.records, 0, {});
      CleanConcat(a, b);
      CleanConcat(a + b, c);
      CleanConcat(a + b + c, d);
      AllTablesSound(core.dirs, core.table.inodes, limits);
      InodesClean(core, keys, {}, limits);
      AllKeysSound(core, limits);
      UnreferencedClean(core.allocation, ReferencedBy(core, keys, {}, limits), 0);
      JournalClean(journal.records, 0, {});
    } else {
      FatalIsNotClean();
    }
  }

  lemma FatalIsNotClean()
    ensures !Clean([Issue(Fatal, SuperblockInvalid, 0, 0)])
  {
    assert [Issue(Fatal, SuperblockInvalid, 0, 0)][0].Serious();
  }

  /** The blocks the checker has seen referenced are those of the inodes' extents. */
  lemma {:induction false} ReferencedByMeans(core: Core, keys: seq<u64>, referenced: set<u64>, limits: Limits)
    requires core.superblock.blockSize > 0 && forall k :: k in keys ==> k in core.table.inodes
    requires forall k :: k in keys ==> core.table.inodes[k].Validate(core.superblock, limits).Ok? && PhysicallyDisjoint(core.table.inodes[k].extents)
    ensures forall b: u64 :: b in ReferencedBy(core, keys, referenced, limits) <==>
              b in referenced || exists k :: k in keys && b in Owned(core.table.inodes[k].extents)
    decreases |keys|
  {
    hide Inode.Validate, PhysicallyDisjoint, Owned, Referenced;
    if keys != [] {
      var inode := core.table.inodes[keys[0]];
      assert keys == [keys[0]] + keys[1..];
      ReferencedIs(inode, core.superblock, referenced, limits);
      ReferencedByMeans(core, keys[1..], Referenced(inode, core.superblock, referenced, limits), limits);
    }
  }

  /** The warning is given for exactly the allocated blocks, other than block 0, that no inode owns; so
      a clean report without it means the bitmap and the extents agree. */
  lemma UnreferencedExactly(core: Core, journal: Journals.Log, block: u64, limits: Limits)
    requires Clean(Check(core, journal, limits)) && core.allocation.Valid()
    ensures Issue(Warning, UnreferencedBlock, 0, block) in Check(core, journal, limits) <==>
            block in core.allocation.used && block != 0 && !HasOwner(block, core.table.inodes)
  {
    CleanIffSound(core, journal, limits);
    hide SoundState, DirectoryIssues, InodesIssues, UnreferencedIssues, JournalIssues, ReferencedBy, SortedKeys, Owned, Clean;
    SoundParts(core, journal, limits);
    var keys := SortedKeys(core.table.inodes.Keys);
    var warning := Issue(Warning, UnreferencedBlock, 0, block);
    ReferencedByMeans(core, keys, {}, limits);
    UnreferencedMeans(core.allocation, ReferencedBy(core, keys, {}, limits), 0, block);
    ElsewhereInDirectories(core.dirs, SortedKeys(core.dirs.Keys), core.table.inodes, limits, warning);
    ElsewhereInInodes(core, keys, {}, limits, warning);
    ElsewhereInJournal(journal.records, 0, {}, warning);
  }

  lemma SoundParts(core: Core, journal: Journals.Log, limits: Limits)
    requires SoundState(core, journal, limits)
    ensures SuperblockSound(core.superblock, limits) && core.superblock.blockSize > 0
    ensures forall id :: id in core.table.inodes ==>
              core.table.inodes[id].Validate(core.superblock, limits).Ok? && PhysicallyDisjoint(core.table.inodes[id].extents)
  {
    hide Inode.Validate, PhysicallyDisjoint, Owned, TableSound;
  }

  /** The codes of the warnings about blocks without an owner, and about the names of inodes. */
  predicate OnlyWarned(code: IssueCode) {
    code == UnreferencedBlock || code == InvalidLinkCount || code == OrphanInode || code == InvalidSymlink
  }

  lemma {:induction false} ElsewhereInTable(entries: Entries, names: set<text>, inodes: map<u64, Inode>, limits: Limits, issue: Issue)
    requires OnlyWarned(issue.code)
    ensures issue !in TableIssues(entries, names, inodes, limits)
    decreases |entries|
  {
    hide DirectoryEntry.Validate;
    if entries != [] {
      ElsewhereInTable(entries[1..], if entries[0].deleted || entries[0].Validate(limits).Err? then names else names + {entries[0].Key()},
                       inodes, limits, issue);
    }
  }

  lemma {:induction false} ElsewhereInDirectories(dirs: Dirs, keys: seq<u64>, inodes: map<u64, Inode>, limits: Limits, issue: Issue)
    requires OnlyWarned(issue.code) && forall k :: k in keys ==> k in dirs
    ensures issue !in DirectoryIssues(dirs, keys, inodes, limits)
    decreases |keys|
  {
    hide TableIssues;
    if keys != [] {
      ElsewhereInTable(dirs[keys[0]], {}, inodes, limits, issue);
      ElsewhereInDirectories(dirs, keys[1..], inodes, limits, issue);
    }
  }

  lemma {:induction false} ElsewhereInBlocks(keys: seq<u64>, id: u64, referenced: set<u64>, used: set<u64>, issue: Issue)
    requires OnlyWarned(issue.code)
    ensures issue !in BlockIssues(keys, id, referenced, used)
    decreases |keys|
  {
    if keys != [] {
      ElsewhereInBlocks(keys[1..], id, referenced + {keys[0]}, used, issue);
    }
  }

  lemma ElsewhereInInode(core: Core, inode: Inode, referenced: set<u64>, limits: Limits, issue: Issue)
    requires issue.code == UnreferencedBlock && core.superblock.blockSize > 0
    ensures issue !in InodeIssues(core, inode, referenced, limits)
  {
    hide Inode.Validate, PhysicalBlocks, BlockIssues, ObservedIn, NamedIn, SortedKeys, NormalizePath;
    if PhysicalBlocks(inode, core.superblock, limits).Ok? {
      ElsewhereInBlocks(BlockKeys(PhysicalBlocks(inode, core.superblock, limits).value), inode.identifier, referenced, core.allocation.used, issue);
    }
  }

  lemma {:induction false} ElsewhereInInodes(core: Core, keys: seq<u64>, referenced: set<u64>, limits: Limits, issue: Issue)
    requires issue.code == UnreferencedBlock && core.superblock.blockSize > 0 && forall k :: k in keys ==> k in core.table.inodes
    ensures issue !in InodesIssues(core, keys, referenced, limits)
    decreases |keys|
  {
    hide InodeIssues, Referenced;
    if keys != [] {
      var inode := core.table.inodes[keys[0]];
      ElsewhereInInode(core, inode, referenced, limits, issue);
      ElsewhereInInodes(core, keys[1..], Referenced(inode, core.superblock, referenced, limits), limits, issue);
    }
  }

  lemma {:induction false} ElsewhereInJournal(records: seq<Journals.JournalRecord>, previous: u64, active: set<u64>, issue: Issue)
    requires OnlyWarned(issue.code)
    ensures issue !in JournalIssues(records, previous, active)
    decreases |records|
  {
    hide SortedKeys;
    if records != [] {
      ElsewhereInJournal(records[1..], records[0].sequence, ActiveAfter(records[0], active), issue);
    }
  }

  // ----- Runs -----

  lemma RunSuperblock(core: Core, limits: Limits)
    requires CoreInv(core, limits)
    ensures SuperblockSound(core.superblock, limits) && core.superblock.blockSize > 0
  {
    hide CoreInv, TreeOk, LinksOk, OwnershipOk, StillOk, Table.Valid, Allocation.Valid, SuperblockSound, CountersOk, Geometry;
    InvPieces(core, limits);
    RootExists(core.Names(), limits);
    IdentifierInRange(core.table, core.superblock.rootInode, limits);
    CountersOf(core, limits);
    RunGeometry(core, limits);
    SuperblockIs(core.superblock, limits);
  }

  lemma SuperblockIs(superblock: Superblock, limits: Limits)
    requires Geometry(limits, superblock.blockSize) && 0 < superblock.blockCount <= limits.maxBlocks
    requires superblock.version == 1 && superblock.blockCount * superblock.blockSize <= limits.maxImageBytes
    requires CountersOk(superblock, limits) && 1 <= superblock.rootInode <= limits.maxInodes
    ensures SuperblockSound(superblock, limits) && superblock.blockSize > 0
  {
    hide PowerOfTwo;
  }

  lemma RunGeometry(core: Core, limits: Limits)
    requires CoreInv(core, limits)
    ensures Geometry(limits, core.superblock.blockSize) && 0 < core.superblock.blockCount <= limits.maxBlocks
    ensures core.superblock.version == 1 && core.superblock.blockCount * core.superblock.blockSize <= limits.maxImageBytes
  {
    hide TreeOk, LinksOk, OwnershipOk, InodesOk, Table.Valid;
    StoreBytes(core.Files(), core.superblock);
  }

  lemma RunTable(ns: Namespace, d: u64, limits: Limits)
    requires TreeOk(ns, limits) && d in ns.dirs && limits.maxNameBytes >= 2 && 0 !in ns.dirs
    ensures HasDirectoryInode(d, ns.inodes) && TableSound(ns.dirs[d], ns.inodes, limits)
  {
    assert TableOk(d, ns.dirs[d], limits);
    DirectoryTyped(ns, d, limits);
    assert Up(ns.dirs, d) in ns.dirs;
    forall i | 0 <= i < |ns.dirs[d]| ensures EntrySound(ns.dirs[d][i], ns.inodes, limits) {
      if !ns.dirs[d][i].deleted {
        EntryLeads(ns, d, i, limits);
      }
    }
  }

  lemma RunInode(core: Core, id: u64, limits: Limits)
    requires CoreInv(core, limits) && id in core.table.inodes && core.superblock.blockSize > 0
    ensures InodeSound(core.table.inodes[id], core.superblock, {}, core.allocation.used, limits) <==>
            InodeFits(core.table.inodes[id], limits)
  {
    hide CoreInv, Inode.Validate, InodeFits, PhysicallyDisjoint, Owned, WellFormed, Allocation.Valid;
    InodeValidates(core, id, limits);
    ExtentsSound(core, id, limits);
  }

  /** In a run the report is clean exactly when the limits admit the dot entries and every inode fits
      them; under roomy limits (`Validity.WholeFits`) that fails for files that a refused growth has
      pushed over the extent limit, and for link targets longer than a file may be. */
  lemma RunIsCleanIff(fs: Fs, limits: Limits)
    requires FsInv(fs, limits)
    ensures Clean(Check(fs.core, fs.journal, limits)) <==>
            limits.maxNameBytes >= 2 && forall id :: id in fs.core.table.inodes ==> InodeFits(fs.core.table.inodes[id], limits)
  {
    hide FsInv, CoreInv, Clean, Check, InodeSound, InodeFits, TableSound, HasDirectoryInode, JournalSound, SuperblockSound, Owned;
    CleanIffSound(fs.core, fs.journal, limits);
    RunParts(fs, limits);
    RunSuperblock(fs.core, limits);
    RootNames(fs.core, limits);
    forall id | id in fs.core.table.inodes
      ensures InodeSound(fs.core.table.inodes[id], fs.core.superblock, {}, fs.core.allocation.used, limits) <==>
              InodeFits(fs.core.table.inodes[id], limits)
    {
      RunInode(fs.core, id, limits);
    }
  }

  /** The entry ".." of the root asks for names of two bytes. */
  lemma RootNames(core: Core, limits: Limits)
    requires CoreInv(core, limits)
    ensures core.superblock.rootInode in core.dirs
    ensures TableSound(core.dirs[core.superblock.rootInode], core.table.inodes, limits) ==> limits.maxNameBytes >= 2
  {
    hide CoreInv, LinksOk, OwnershipOk, StillOk, EntriesOk, Table.Valid, Allocation.Valid;
    InvPieces(core, limits);
    TreeRoot(core.Names(), limits);
    var entries := core.dirs[core.superblock.rootInode];
    assert TableOk(core.superblock.rootInode, core.Names().dirs[core.superblock.rootInode], limits);
    if TableSound(entries, core.table.inodes, limits) {
      assert EntrySound(entries[1], core.table.inodes, limits);
    }
  }

  lemma OverLimit(core: Core, journal: Journals.Log, id: u64, limits: Limits)
    requires id in core.table.inodes && |core.table.inodes[id].extents| > limits.maxExtents
    ensures !SoundState(core, journal, limits)
  {
    hide InodeSound, TableSound, HasDirectoryInode, JournalSound, SuperblockSound, Owned;
    if core.superblock.blockSize > 0 {
      TooManyExtents(core, id, limits);
    }
  }

  lemma TooManyExtents(core: Core, id: u64, limits: Limits)
    requires core.superblock.blockSize > 0 && id in core.table.inodes && |core.table.inodes[id].extents| > limits.maxExtents
    ensures !InodeSound(core.table.inodes[id], core.superblock, {}, core.allocation.used, limits)
  {
    hide Normalize, Owned;
  }

  lemma RunParts(fs: Fs, limits: Limits)
    requires FsInv(fs, limits)
    ensures CoreInv(fs.core, limits) && SuperblockSound(fs.core.superblock, limits)
    ensures limits.maxNameBytes >= 2 ==> forall d :: d in fs.core.dirs ==>
              HasDirectoryInode(d, fs.core.table.inodes) && TableSound(fs.core.dirs[d], fs.core.table.inodes, limits)
    ensures forall a, b :: a in fs.core.table.inodes && b in fs.core.table.inodes && a != b ==>
              Owned(fs.core.table.inodes[a].extents) !! Owned(fs.core.table.inodes[b].extents)
    ensures JournalSound(fs.journal.records, 0, {})
  {
    assert CoreInv(fs.core, limits) && Journals.LogOk(fs.journal, limits);
    hide FsInv, CoreInv, TableSound, HasDirectoryInode, SuperblockSound, Owned, TreeOk, LinksOk, OwnershipOk, StillOk, Table.Valid, Allocation.Valid, Journals.LogOk, JournalSound;
    LogSound(fs.journal, limits);
    RunSuperblock(fs.core, limits);
    InvPieces(fs.core, limits);
    NoZeroDirectory(fs.core, limits);
    OwnersDisjoint(fs.core.allocation.used, fs.core.table.inodes);
    forall d | d in fs.core.dirs && limits.maxNameBytes >= 2
      ensures HasDirectoryInode(d, fs.core.table.inodes) && TableSound(fs.core.dirs[d], fs.core.table.inodes, limits)
    {
      RunTable(fs.core.Names(), d, limits);
    }
  }

  lemma NoZeroDirectory(core: Core, limits: Limits)
    requires CoreInv(core, limits)
    ensures 0 !in core.dirs
  {
    InvPieces(core, limits);
    RootExists(core.Names(), limits);
    hide CoreInv, TreeOk, LinksOk, OwnershipOk, StillOk, Table.Valid;
    if 0 in core.dirs {
      IdentifierInRange(core.table, 0, limits);
    }
  }

  /** How a run gets there: with room for a single extent, writing two blocks into an empty file is
      refused after both were taken, and the report on what is left is not clean. */
  lemma RefusedGrowthIsReported(core: Core, journal: Journals.Log, id: u64, data: seq<byte>, limits: Limits)
    requires CoreInv(core, limits) && id in core.table.inodes && core.table.inodes[id].inodeType == Regular
    requires core.table.inodes[id].size == 0 && core.table.inodes[id].extents == [] && limits.maxExtents == 1
    requires core.superblock.blockSize > 0 && |data| == 2 * core.superblock.blockSize <= limits.maxFileBytes
    requires |core.allocation.used| + 2 <= core.allocation.count
    ensures var (next, r) := WriteInode(core, id, 0, data, limits);
            && r.Err? && CoreInv(next, limits) && |next.table.inodes[id].extents| == 2
            && !Clean(Check(next, journal, limits))
  {
    var inode := core.table.inodes[id];
    WriteInodeKeepsInv(core, id, 0, data, limits);
    TwoBlocksRefused(core, id, data, limits);
    hide CoreInv, FileData.WriteData, Check, Clean, SoundState, Content;
    var next := WriteInode(core, id, 0, data, limits).0;
    CleanIffSound(next, journal, limits);
    OverLimit(next, journal, id, limits);
  }

  lemma TwoBlocksRefused(core: Core, id: u64, data: seq<byte>, limits: Limits)
    requires CoreInv(core, limits) && id in core.table.inodes && core.table.inodes[id].inodeType == Regular
    requires core.table.inodes[id].size == 0 && core.table.inodes[id].extents == [] && limits.maxExtents == 1
    requires core.superblock.blockSize > 0 && |data| == 2 * core.superblock.blockSize <= limits.maxFileBytes
    requires |core.allocation.used| + 2 <= core.allocation.count
    ensures var (_, inode, r) := FileData.WriteData(core.Files(), core.table.inodes[id], 0, data, core.superblock, limits);
            r.Err? && |inode.extents| == 2
  {
    hide CoreInv, FileOk, StoreOk, Normalize, Taken, Extended, Allocation.Valid, OwnedIn, Grow, Allocation.AllocateMany, FileData.WriteData, Lookup;
    var inode, size := core.table.inodes[id], core.superblock.blockSize;
    FileOfRun(core, id, limits);
    TwoBlocks(size);
    AllocateManyFailsWhenFull(core.allocation, 2);
    GrowEffect(core.Files(), inode, 2, core.superblock, limits);
    RefusedBefore(core.Files(), inode, data, core.superblock, limits);
  }

  lemma RefusedBefore(store: Store, inode: Inode, data: seq<byte>, superblock: Superblock, limits: Limits)
    requires superblock.blockSize > 0 && inode.size == 0 && 0 < |data| == 2 * superblock.blockSize <= limits.maxFileBytes
    requires Grow(store, inode, 0, 2, superblock, limits).2.Err?
    ensures FileData.WriteData(store, inode, 0, data, superblock, limits) == Grow(store, inode, 0, 2, superblock, limits)
  {
    TwoBlocks(superblock.blockSize);
    hide Grow;
  }

  lemma FileOfRun(core: Core, id: u64, limits: Limits)
    requires CoreInv(core, limits) && id in core.table.inodes && core.table.inodes[id].inodeType == Regular
    ensures StoreOk(core.Files(), core.superblock) && core.allocation.Valid()
    ensures FileOk(core.device, core.table.inodes[id], core.superblock, limits)
    ensures OwnedIn(core.table.inodes[id].extents, core.allocation.used)
  {
    ExtentsSound(core, id, limits);
    hide TreeOk, LinksOk, OwnershipOk, FileOk, Table.Valid, Allocation.Valid, OwnedIn;
    assert InodeOk(core.device, core.table.inodes[id], core.superblock, limits);
  }

  lemma TwoBlocks(size: nat)
    requires size > 0
    ensures CeilDivide(2 * size, size) == 2 && CeilDivide(0, size) == 0
  {
    var n := CeilDivide(2 * size, size);
    if n < 2 {
      MulMonotone(size, n, 1);
    } else if n > 2 {
      MulMonotone(size, 2, n - 1);
    }
  }
}
