/** The consistency checker: what it reports, as a function, and the loops that compute it. */
module Checkers {
  import opened Base
  import opened Extents
  import opened Allocators
  import opened Inodes
  import opened Directories
  import opened Paths
  import Journals
  import opened FsModel

  datatype Severity = Warning | Error | Fatal

  datatype IssueCode =
    | SuperblockInvalid
    | BlockBitmapMismatch
    | DuplicateBlock
    | UnreferencedBlock
    | MissingInode
    | OrphanInode
    | InvalidLinkCount
    | InvalidDirectoryEntry
    | ExtentOutOfRange
    | SizeMismatch
    | InvalidSymlink
    | JournalSequence
    | JournalTransaction

  datatype Issue = Issue(severity: Severity, code: IssueCode, inode: u64, block: u64) {
    predicate Serious() {
      severity == Error || severity == Fatal
    }
  }

  type Report = seq<Issue>

  /** `CheckReport::clean`. */
  predicate Clean(report: Report) {
    forall i :: 0 <= i < |report| ==> !report[i].Serious()
  }

  function When(condition: bool, issue: Issue): Report {
    if condition then [issue] else []
  }

  // ----- Directory tables -----

  function EntryIssues(e: DirectoryEntry, names: set<text>, inodes: map<u64, Inode>, limits: Limits): Report {
    if e.Validate(limits).Err? then [Issue(Error, InvalidDirectoryEntry, e.inode, 0)]
    else
      When(e.Key() in names, Issue(Error, InvalidDirectoryEntry, e.inode, 0))
      + (if e.inode !in inodes then [Issue(Error, MissingInode, e.inode, 0)]
         else When(inodes[e.inode].inodeType != e.entryType, Issue(Error, InvalidDirectoryEntry, e.inode, 0)))
  }

  /** Tombstones are passed over; a name counts as seen once its entry is valid. */
  function TableIssues(entries: Entries, names: set<text>, inodes: map<u64, Inode>, limits: Limits): Report
    decreases |entries|
  {
    if entries == [] then []
    else if entries[0].deleted then TableIssues(entries[1..], names, inodes, limits)
    else
      var seen := if entries[0].Validate(limits).Ok? then names + {entries[0].Key()} else names;
      EntryIssues(entries[0], names, inodes, limits) + TableIssues(entries[1..], seen, inodes, limits)
  }

  predicate HasDirectoryInode(d: u64, inodes: map<u64, Inode>) {
    d in inodes && inodes[d].inodeType == Directory
  }

  function DirectoryIssues(dirs: Dirs, keys: seq<u64>, inodes: map<u64, Inode>, limits: Limits): Report
    requires forall k :: k in keys ==> k in dirs
  {
    if keys == [] then []
    else
      (if HasDirectoryInode(keys[0], inodes) then TableIssues(dirs[keys[0]], {}, inodes, limits)
       else [Issue(Error, MissingInode, keys[0], 0)])
      + DirectoryIssues(dirs, keys[1..], inodes, limits)
  }

  /** How many active entries, dots included, lead to an inode. */
  function Observed(entries: Entries, id: u64): nat {
    if entries == [] then 0
    else (if !entries[0].deleted && entries[0].inode == id then 1 else 0) + Observed(entries[1..], id)
  }

  function ObservedIn(dirs: Dirs, keys: seq<u64>, inodes: map<u64, Inode>, id: u64): nat
    requires forall k :: k in keys ==> k in dirs
  {
    if keys == [] then 0
    else (if HasDirectoryInode(keys[0], inodes) then Observed(dirs[keys[0]], id) else 0) + ObservedIn(dirs, keys[1..], inodes, id)
  }

  /** Some active entry that is not a dot leads to the inode. */
  predicate Named(entries: Entries, id: u64) {
    exists i :: 0 <= i < |entries| && !entries[i].deleted && !entries[i].IsDot() && entries[i].inode == id
  }

  predicate NamedIn(dirs: Dirs, keys: seq<u64>, inodes: map<u64, Inode>, id: u64)
    requires forall k :: k in keys ==> k in dirs
  {
    exists i :: 0 <= i < |keys| && HasDirectoryInode(keys[i], inodes) && Named(dirs[keys[i]], id)
  }

  // ----- Inodes -----

  function BlockKeys(blocks: set<int>): seq<u64> {
    SortedKeys(set b: u64 | b in blocks)
  }

  function BlockIssues(keys: seq<u64>, id: u64, referenced: set<u64>, used: set<u64>): Report {
    if keys == [] then []
    else
      When(keys[0] in referenced, Issue(Fatal, DuplicateBlock, id, keys[0]))
      + When(keys[0] !in used, Issue(Error, BlockBitmapMismatch, id, keys[0]))
      + BlockIssues(keys[1..], id, referenced + {keys[0]}, used)
  }

  function ExpectedLinks(inode: Inode, observed: nat): nat {
    if inode.inodeType == Directory && observed < 2 then 2 else observed
  }

  function ValidationIssues(inode: Inode, superblock: Superblock, limits: Limits): Report
    requires superblock.blockSize > 0
  {
    match inode.Validate(superblock, limits)
    case Ok(_) => []
    case Err(code) => [Issue(Error, if code == InvalidExtent then ExtentOutOfRange else SizeMismatch, inode.identifier, 0)]
  }

  function PhysicalIssues(inode: Inode, superblock: Superblock, referenced: set<u64>, used: set<u64>, limits: Limits): Report
    requires superblock.blockSize > 0
  {
    match PhysicalBlocks(inode, superblock, limits)
    case Err(_) => [Issue(Error, ExtentOutOfRange, inode.identifier, 0)]
    case Ok(blocks) => BlockIssues(BlockKeys(blocks), inode.identifier, referenced, used)
  }

  /** Warnings about the names of an inode and the target of a link. */
  function NameIssues(inode: Inode, observed: nat, named: bool, root: u64, limits: Limits): Report {
    When(inode.linkCount != ExpectedLinks(inode, observed) && inode.identifier != root,
         Issue(Warning, InvalidLinkCount, inode.identifier, 0))
    + When(inode.identifier != root && !named, Issue(Warning, OrphanInode, inode.identifier, 0))
    + When(inode.inodeType == SymbolicLink && NormalizePath(inode.symlinkTarget, limits).Err?,
           Issue(Warning, InvalidSymlink, inode.identifier, 0))
  }

  function Referenced(inode: Inode, superblock: Superblock, referenced: set<u64>, limits: Limits): set<u64>
    requires superblock.blockSize > 0
  {
    match PhysicalBlocks(inode, superblock, limits)
    case Err(_) => referenced
    case Ok(blocks) => referenced + set b: u64 | b in blocks
  }

  function InodeIssues(core: Core, inode: Inode, referenced: set<u64>, limits: Limits): Report
    requires core.superblock.blockSize > 0
  {
    var keys := SortedKeys(core.dirs.Keys);
    ValidationIssues(inode, core.superblock, limits)
    + PhysicalIssues(inode, core.superblock, referenced, core.allocation.used, limits)
    + NameIssues(inode, ObservedIn(core.dirs, keys, core.table.inodes, inode.identifier),
                 NamedIn(core.dirs, keys, core.table.inodes, inode.identifier), core.superblock.rootInode, limits)
  }

  /** The blocks referenced by the inodes under the given keys, on top of those already seen. */
  function ReferencedBy(core: Core, keys: seq<u64>, referenced: set<u64>, limits: Limits): set<u64>
    requires core.superblock.blockSize > 0 && forall k :: k in keys ==> k in core.table.inodes
    decreases |keys|
  {
    if keys == [] then referenced
    else ReferencedBy(core, keys[1..], Referenced(core.table.inodes[keys[0]], core.superblock, referenced, limits), limits)
  }

  function InodesIssues(core: Core, keys: seq<u64>, referenced: set<u64>, limits: Limits): Report
    requires core.superblock.blockSize > 0 && forall k :: k in keys ==> k in core.table.inodes
    decreases |keys|
  {
    if keys == [] then []
    else
      var inode := core.table.inodes[keys[0]];
      InodeIssues(core, inode, referenced, limits)
      + InodesIssues(core, keys[1..], Referenced(inode, core.superblock, referenced, limits), limits)
  }

  // ----- Bitmap and journal -----

  function UnreferencedIssues(allocation: Allocation, referenced: set<u64>, from: nat): Report
    decreases allocation.count - from
  {
    if from >= allocation.count then []
    else
      When(from in allocation.used && from != 0 && from !in referenced, Issue(Warning, UnreferencedBlock, 0, from))
      + UnreferencedIssues(allocation, referenced, from + 1)
  }

  function ActiveAfter(record: Journals.JournalRecord, active: set<u64>): set<u64> {
    match record.recordType
    case BeginRecord => active + {record.transaction}
    case CommitRecord => active - {record.transaction}
    case RollbackRecord => active - {record.transaction}
    case _ => active
  }

  function RecordIssues(record: Journals.JournalRecord, previous: u64, active: set<u64>): Report {
    When(record.sequence <= previous, Issue(Error, JournalSequence, 0, 0))
    + match record.recordType
      case BeginRecord => When(record.transaction in active, Issue(Error, JournalTransaction, 0, 0))
      case CheckpointRecord => []
      case _ => When(record.transaction !in active, Issue(Error, JournalTransaction, 0, 0))
  }

  function JournalIssues(records: seq<Journals.JournalRecord>, previous: u64, active: set<u64>): Report
    decreases |records|
  {
    if records == [] then IncompleteIssues(SortedKeys(active))
    else RecordIssues(records[0], previous, active) + JournalIssues(records[1..], records[0].sequence, ActiveAfter(records[0], active))
  }

  function IncompleteIssues(keys: seq<u64>): Report {
    seq(|keys|, i => Issue(Warning, JournalTransaction, 0, 0))
  }

  // ----- check -----

  predicate SuperblockSound(superblock: Superblock, limits: Limits) {
    var bytes := CheckedMultiply(superblock.blockCount, superblock.blockSize);
    bytes.Some? && superblock.Validate(bytes.value, limits).Ok?
  }

  lemma SoundBlockSize(superblock: Superblock, limits: Limits)
    requires SuperblockSound(superblock, limits)
    ensures superblock.blockSize > 0
  {
  }

  function Check(core: Core, journal: Journals.Log, limits: Limits): Report {
    if !SuperblockSound(core.superblock, limits) then [Issue(Fatal, SuperblockInvalid, 0, 0)]
    else
      SoundBlockSize(core.superblock, limits);
      var keys := SortedKeys(core.table.inodes.Keys);
      DirectoryIssues(core.dirs, SortedKeys(core.dirs.Keys), core.table.inodes, limits)
      + InodesIssues(core, keys, {}, limits)
      + UnreferencedIssues(core.allocation, ReferencedBy(core, keys, {}, limits), 0)
      + JournalIssues(journal.records, 0, {})
  }

  // ----- The loops -----

  /** One table: issues, and the two tallies over its active entries. */
  method ScanTable(entries: Entries, inodes: map<u64, Inode>, limits: Limits, observed: map<u64, nat>, reachable: set<u64>)
    returns (report: Report, observed': map<u64, nat>, reachable': set<u64>)
    ensures report == TableIssues(entries, {}, inodes, limits)
    ensures forall id: u64 :: Count(observed', id) == Count(observed, id) + Observed(entries, id)
    ensures forall id :: id in reachable' <==> id in reachable || Named(entries, id)
  {
    hide DirectoryEntry.Validate, EntryIssues;
    report, observed', reachable' := [], observed, reachable;
    var names: set<text> := {};
    var index := 0;
    assert entries[0..] == entries;
    while index < |entries|
      invariant 0 <= index <= |entries|
      invariant report + TableIssues(entries[index..], names, inodes, limits) == TableIssues(entries, {}, inodes, limits)
      invariant forall id: u64 :: Count(observed', id) + Observed(entries[index..], id) == Count(observed, id) + Observed(entries, id)
      invariant forall id :: id in reachable' <==> id in reachable || Named(entries[..index], id)
    {
      var e := entries[index];
      assert entries[index..][1..] == entries[index + 1..];
      NamedNext(entries, index);
      if !e.deleted {
        ghost var rest := TableIssues(entries[index + 1..], if e.Validate(limits).Ok? then names + {e.Key()} else names, inodes, limits);
        assert report + (EntryIssues(e, names, inodes, limits) + rest) == report + EntryIssues(e, names, inodes, limits) + rest;
        observed' := observed'[e.inode := Count(observed', e.inode) + 1];
        if !e.IsDot() {
          reachable' := reachable' + {e.inode};
        }
        report := report + EntryIssues(e, names, inodes, limits);
        if e.Validate(limits).Ok? {
          names := names + {e.Key()};
        }
      }
      index := index + 1;
    }
    assert entries[..index] == entries && report + [] == report;
  }

  function Count(observed: map<u64, nat>, id: u64): nat {
    if id in observed then observed[id] else 0
  }

  lemma NamedNext(entries: Entries, index: nat)
    requires index < |entries|
    ensures forall id :: Named(entries[..index + 1], id) <==>
              Named(entries[..index], id) || (!entries[index].deleted && !entries[index].IsDot() && entries[index].inode == id)
  {
    forall id ensures Named(entries[..index + 1], id) <==>
              Named(entries[..index], id) || (!entries[index].deleted && !entries[index].IsDot() && entries[index].inode == id)
    {
      if Named(entries[..index], id) {
        var i :| 0 <= i < index && !entries[..index][i].deleted && !entries[..index][i].IsDot() && entries[..index][i].inode == id;
        assert entries[..index + 1][i] == entries[i];
      }
      if Named(entries[..index + 1], id) {
        var i :| 0 <= i < index + 1 && !entries[..index + 1][i].deleted && !entries[..index + 1][i].IsDot() && entries[..index + 1][i].inode == id;
        assert i < index ==> entries[..index][i] == entries[i];
      }
      if !entries[index].deleted && !entries[index].IsDot() && entries[index].inode == id {
        assert entries[..index + 1][index] == entries[index];
      }
    }
  }

  method ScanDirectories(core: Core, limits: Limits) returns (report: Report, observed: map<u64, nat>, reachable: set<u64>)
    ensures var keys := SortedKeys(core.dirs.Keys);
            && report == DirectoryIssues(core.dirs, keys, core.table.inodes, limits)
            && (forall id: u64 :: Count(observed, id) == ObservedIn(core.dirs, keys, core.table.inodes, id))
            && (forall id :: id in reachable <==> NamedIn(core.dirs, keys, core.table.inodes, id))
  {
    hide TableIssues, Observed, Named, SortedKeys, HasDirectoryInode, DirectoryIssues, ObservedIn, NamedIn;
    var keys := SortedKeys(core.dirs.Keys);
    report, observed, reachable := [], map[], {};
    var index := 0;
    assert keys[0..] == keys;
    NothingScanned(core.dirs, keys, core.table.inodes, limits);
    while index < |keys|
      invariant 0 <= index <= |keys|
      invariant report + DirectoryIssues(core.dirs, keys[index..], core.table.inodes, limits) ==
                DirectoryIssues(core.dirs, keys, core.table.inodes, limits)
      invariant forall id: u64 :: Count(observed, id) + ObservedIn(core.dirs, keys[index..], core.table.inodes, id) ==
                  ObservedIn(core.dirs, keys, core.table.inodes, id)
      invariant forall id :: id in reachable <==> NamedIn(core.dirs, keys[..index], core.table.inodes, id)
    {
      var d := keys[index];
      ScanNext(core.dirs, keys, core.table.inodes, index, limits);
      NamedInNext(core.dirs, keys, core.table.inodes, index);
      ghost var rest := DirectoryIssues(core.dirs, keys[index + 1..], core.table.inodes, limits);
      var found: Report;
      if HasDirectoryInode(d, core.table.inodes) {
        found, observed, reachable := ScanTable(core.dirs[d], core.table.inodes, limits, observed, reachable);
      } else {
        found := [Issue(Error, MissingInode, d, 0)];
      }
      assert report + (found + rest) == report + found + rest;
      report := report + found;
      index := index + 1;
    }
    assert keys[..index] == keys && report + [] == report;
  }

  lemma NothingScanned(dirs: Dirs, keys: seq<u64>, inodes: map<u64, Inode>, limits: Limits)
    requires forall k :: k in keys ==> k in dirs
    ensures forall id :: !NamedIn(dirs, keys[..0], inodes, id)
    ensures DirectoryIssues(dirs, keys[|keys|..], inodes, limits) == []
    ensures forall id :: ObservedIn(dirs, keys[|keys|..], inodes, id) == 0
  {
  }

  lemma ScanNext(dirs: Dirs, keys: seq<u64>, inodes: map<u64, Inode>, index: nat, limits: Limits)
    requires (forall k :: k in keys ==> k in dirs) && index < |keys|
    ensures DirectoryIssues(dirs, keys[index..], inodes, limits) ==
            (if HasDirectoryInode(keys[index], inodes) then TableIssues(dirs[keys[index]], {}, inodes, limits)
             else [Issue(Error, MissingInode, keys[index], 0)]) + DirectoryIssues(dirs, keys[index + 1..], inodes, limits)
    ensures forall id :: ObservedIn(dirs, keys[index..], inodes, id) ==
              (if HasDirectoryInode(keys[index], inodes) then Observed(dirs[keys[index]], id) else 0)
              + ObservedIn(dirs, keys[index + 1..], inodes, id)
  {
    hide TableIssues, Observed, HasDirectoryInode;
    assert keys[index..][1..] == keys[index + 1..];
  }

  lemma NamedInNext(dirs: Dirs, keys: seq<u64>, inodes: map<u64, Inode>, index: nat)
    requires index < |keys| && forall k :: k in keys ==> k in dirs
    ensures forall id :: NamedIn(dirs, keys[..index + 1], inodes, id) <==>
              NamedIn(dirs, keys[..index], inodes, id) || (HasDirectoryInode(keys[index], inodes) && Named(dirs[keys[index]], id))
  {
    hide Named, HasDirectoryInode;
    forall id ensures NamedIn(dirs, keys[..index + 1], inodes, id) <==>
              NamedIn(dirs, keys[..index], inodes, id) || (HasDirectoryInode(keys[index], inodes) && Named(dirs[keys[index]], id))
    {
      if NamedIn(dirs, keys[..index], inodes, id) {
        var i :| 0 <= i < index && HasDirectoryInode(keys[..index][i], inodes) && Named(dirs[keys[..index][i]], id);
        assert keys[..index + 1][i] == keys[i];
      }
      if NamedIn(dirs, keys[..index + 1], inodes, id) {
        var i :| 0 <= i < index + 1 && HasDirectoryInode(keys[..index + 1][i], inodes) && Named(dirs[keys[..index + 1][i]], id);
        assert i < index ==> keys[..index][i] == keys[i];
      }
      if HasDirectoryInode(keys[index], inodes) && Named(dirs[keys[index]], id) {
        assert keys[..index + 1][index] == keys[index];
      }
    }
  }

  method ScanBlocks(blocks: set<int>, id: u64, referenced: set<u64>, used: set<u64>) returns (report: Report, referenced': set<u64>)
    ensures report == BlockIssues(BlockKeys(blocks), id, referenced, used)
    ensures referenced' == referenced + set b: u64 | b in blocks
  {
    hide SortedKeys, Increasing, BlockIssues, AllAdded;
    var keys := BlockKeys(blocks);
    report, referenced' := [], referenced;
    var index := 0;
    assert keys[0..] == keys;
    while index < |keys|
      invariant 0 <= index <= |keys|
      invariant report + BlockIssues(keys[index..], id, referenced', used) == BlockIssues(keys, id, referenced, used)
      invariant AllAdded(keys[index..], referenced') == AllAdded(keys, referenced)
    {
      var block := keys[index];
      BlockIssuesNext(keys, index, id, referenced', used);
      var found := When(block in referenced', Issue(Fatal, DuplicateBlock, id, block))
                   + When(block !in used, Issue(Error, BlockBitmapMismatch, id, block));
      ghost var rest := BlockIssues(keys[index + 1..], id, referenced' + {block}, used);
      assert report + (found + rest) == report + found + rest;
      report := report + found;
      referenced' := referenced' + {block};
      index := index + 1;
    }
    NoBlocksLeft(keys, id, referenced', used);
    AllAddedMeans(keys, referenced);
    assert report + [] == report;
  }

  function AllAdded(keys: seq<u64>, referenced: set<u64>): set<u64> {
    if keys == [] then referenced else AllAdded(keys[1..], referenced + {keys[0]})
  }

  lemma {:induction false} AllAddedMeans(keys: seq<u64>, referenced: set<u64>)
    ensures forall b: u64 :: b in AllAdded(keys, referenced) <==> b in referenced || b in keys
    decreases |keys|
  {
    if keys != [] {
      AllAddedMeans(keys[1..], referenced + {keys[0]});
      assert keys == [keys[0]] + keys[1..];
    }
  }

  lemma NoBlocksLeft(keys: seq<u64>, id: u64, referenced: set<u64>, used: set<u64>)
    ensures BlockIssues(keys[|keys|..], id, referenced, used) == []
    ensures AllAdded(keys[|keys|..], referenced) == referenced
  {
  }

  lemma BlockIssuesNext(keys: seq<u64>, index: nat, id: u64, referenced: set<u64>, used: set<u64>)
    requires index < |keys|
    ensures AllAdded(keys[index..], referenced) == AllAdded(keys[index + 1..], referenced + {keys[index]})
    ensures BlockIssues(keys[index..], id, referenced, used) ==
            When(keys[index] in referenced, Issue(Fatal, DuplicateBlock, id, keys[index]))
            + When(keys[index] !in used, Issue(Error, BlockBitmapMismatch, id, keys[index]))
            + BlockIssues(keys[index + 1..], id, referenced + {keys[index]}, used)
  {
    assert keys[index..][1..] == keys[index + 1..];
  }

  method ScanInode(core: Core, inode: Inode, referenced: set<u64>, observed: map<u64, nat>, reachable: set<u64>, limits: Limits)
    returns (report: Report, referenced': set<u64>)
    requires core.superblock.blockSize > 0
    requires forall id: u64 :: Count(observed, id) == ObservedIn(core.dirs, SortedKeys(core.dirs.Keys), core.table.inodes, id)
    requires forall id :: id in reachable <==> NamedIn(core.dirs, SortedKeys(core.dirs.Keys), core.table.inodes, id)
    ensures report == InodeIssues(core, inode, referenced, limits)
    ensures referenced' == Referenced(inode, core.superblock, referenced, limits)
  {
    hide BlockIssues, BlockKeys, PhysicalBlocks, Inode.Validate, ObservedIn, NamedIn, SortedKeys, NormalizePath;
    report, referenced' := [], referenced;
    var valid := ValidateInode(inode, core.superblock, limits);
    if valid.Err? {
      report := [Issue(Error, if valid.code == InvalidExtent then ExtentOutOfRange else SizeMismatch, inode.identifier, 0)];
    }
    assert report == ValidationIssues(inode, core.superblock, limits);
    var blocks := CollectPhysicalBlocks(inode, core.superblock, limits);
    if blocks.Err? {
      report := report + [Issue(Error, ExtentOutOfRange, inode.identifier, 0)];
    } else {
      var found;
      found, referenced' := ScanBlocks(blocks.value, inode.identifier, referenced, core.allocation.used);
      report := report + found;
    }
    var links := ExpectedLinks(inode, Count(observed, inode.identifier));
    var root := core.superblock.rootInode;
    var target := NormalizePathText(inode.symlinkTarget, limits);
    report := report
              + (When(inode.linkCount != links && inode.identifier != root, Issue(Warning, InvalidLinkCount, inode.identifier, 0))
                 + When(inode.identifier != root && inode.identifier !in reachable, Issue(Warning, OrphanInode, inode.identifier, 0))
                 + When(inode.inodeType == SymbolicLink && target.Err?, Issue(Warning, InvalidSymlink, inode.identifier, 0)));
  }

  method ScanInodes(core: Core, observed: map<u64, nat>, reachable: set<u64>, limits: Limits)
    returns (report: Report, referenced: set<u64>)
    requires core.superblock.blockSize > 0
    requires forall id: u64 :: Count(observed, id) == ObservedIn(core.dirs, SortedKeys(core.dirs.Keys), core.table.inodes, id)
    requires forall id :: id in reachable <==> NamedIn(core.dirs, SortedKeys(core.dirs.Keys), core.table.inodes, id)
    ensures report == InodesIssues(core, SortedKeys(core.table.inodes.Keys), {}, limits)
    ensures referenced == ReferencedBy(core, SortedKeys(core.table.inodes.Keys), {}, limits)
  {
    hide InodeIssues, Referenced, ObservedIn, NamedIn, SortedKeys;
    var keys := SortedKeys(core.table.inodes.Keys);
    report, referenced := [], {};
    var index := 0;
    assert keys[0..] == keys;
    while index < |keys|
      invariant 0 <= index <= |keys|
      invariant report + InodesIssues(core, keys[index..], referenced, limits) == InodesIssues(core, keys, {}, limits)
      invariant ReferencedBy(core, keys[index..], referenced, limits) == ReferencedBy(core, keys, {}, limits)
    {
      assert keys[index..][1..] == keys[index + 1..];
      var found, grown := ScanInode(core, core.table.inodes[keys[index]], referenced, observed, reachable, limits);
      ghost var rest := InodesIssues(core, keys[index + 1..], grown, limits);
      assert report + (found + rest) == report + found + rest;
      report, referenced := report + found, grown;
      index := index + 1;
    }
    assert report + [] == report;
  }

  method ScanBitmap(allocation: Allocation, referenced: set<u64>) returns (report: Report)
    ensures report == UnreferencedIssues(allocation, referenced, 0)
  {
    report := [];
    var block := 0;
    while block < allocation.count
      invariant 0 <= block <= allocation.count
      invariant report + UnreferencedIssues(allocation, referenced, block) == UnreferencedIssues(allocation, referenced, 0)
    {
      var found := When(block in allocation.used && block != 0 && block !in referenced, Issue(Warning, UnreferencedBlock, 0, block));
      ghost var rest := UnreferencedIssues(allocation, referenced, block + 1);
      assert report + (found + rest) == report + found + rest;
      report := report + found;
      block := block + 1;
    }
    assert report + [] == report;
  }

  method ScanJournal(records: seq<Journals.JournalRecord>) returns (report: Report)
    ensures report == JournalIssues(records, 0, {})
  {
    hide RecordIssues, ActiveAfter, IncompleteIssues;
    report := [];
    var previous: u64, active: set<u64>, index := 0, {}, 0;
    assert records[0..] == records;
    while index < |records|
      invariant 0 <= index <= |records|
      invariant report + JournalIssues(records[index..], previous, active) == JournalIssues(records, 0, {})
    {
      var record := records[index];
      assert records[index..][1..] == records[index + 1..];
      var found := RecordIssues(record, previous, active);
      ghost var rest := JournalIssues(records[index + 1..], record.sequence, ActiveAfter(record, active));
      assert report + (found + rest) == report + found + rest;
      report := report + found;
      active := ActiveAfter(record, active);
      previous := record.sequence;
      index := index + 1;
    }
    report := report + IncompleteIssues(SortedKeys(active));
  }

  method CheckFilesystem(core: Core, journal: Journals.Log, limits: Limits) returns (report: Report)
    ensures report == Check(core, journal, limits)
  {
    hide DirectoryIssues, InodesIssues, UnreferencedIssues, JournalIssues, ReferencedBy, ObservedIn, NamedIn, SuperblockSound;
    if !SuperblockSound(core.superblock, limits) {
      return [Issue(Fatal, SuperblockInvalid, 0, 0)];
    }
    SoundBlockSize(core.superblock, limits);
    var tables, observed, reachable := ScanDirectories(core, limits);
    var inodes, referenced := ScanInodes(core, observed, reachable, limits);
    var bitmap := ScanBitmap(core.allocation, referenced);
    var records := ScanJournal(journal.records);
    report := tables + inodes + bitmap + records;
  }
}
