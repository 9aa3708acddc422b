/** A run from a first format to a report that is not clean. */
module UncleanRuns {
  import opened Base
  import opened Bytes
  import opened Devices
  import opened Allocators
  import opened Inodes
  import opened InodeTables
  import opened Directories
  import opened Paths
  import opened Trees
  import opened TreeOps
  import Journals
  import opened FileData
  import opened FsModel
  import opened FsInvariant
  import opened FsCreate
  import opened FsRemove
  import opened FsNodes
  import opened FsRuns
  import opened Checkers
  import opened CheckerTheorems

  const NAME: text := [102]
  const PATH: text := [SLASH, 102]

  /** Limits with room for one short name. */
  predicate ShortNames(limits: Limits) {
    && limits.maxInodes >= 2 && limits.maxDirectoryEntries >= 3
    && limits.maxNameBytes >= 1 && limits.maxPathBytes >= 2 && limits.maxPathComponents >= 1
    && ExpansionLimit(limits) >= 1
  }

  lemma PathSplits(limits: Limits)
    requires ShortNames(limits)
    ensures Split(PATH, limits) == Ok([NAME]) && Split([SLASH], limits) == Ok([])
  {
    assert PATH[1..2] == NAME;
    assert SplitFrom(PATH, 2, [NAME], limits) == Ok([NAME]);
    assert [] + [NAME] == [NAME];
    assert SkipSlashes(PATH, 0) == 1 && NextSlash(PATH, 1) == 2;
  }

  /** The directory a file of the root goes to. */
  lemma ParentIsRoot(ns: Namespace, limits: Limits)
    requires ShortNames(limits) && ns.IsDirectory(ns.root)
    ensures ResolveParent(ns, PATH, ns.root, limits) == Ok((ns.root, NAME))
  {
    PathSplits(limits);
    hide Split;
    assert [NAME][..0] == [];
    assert ParentPath(true, []) == [SLASH];
    assert ResolveFrom(ns, Start(ns, [SLASH], ns.root, []), true, limits, ExpansionLimit(limits))
        == Ok(Start(ns, [SLASH], ns.root, []));
  }

  /** A file of the root is found by its path. */
  lemma PathFinds(ns: Namespace, id: u64, limits: Limits)
    requires ShortNames(limits) && ns.IsDirectory(ns.root) && id in ns.inodes && ns.inodes[id].inodeType == Regular
    requires ns.Find(ns.root, NAME).Some? && ns.Find(ns.root, NAME).value.inode == id
    ensures Resolve(ns, PATH, ns.root, true, limits).Ok? && Resolve(ns, PATH, ns.root, true, limits).value.inode == id
  {
    PathSplits(limits);
    hide Split, Directories.Find;
    var start := Start(ns, PATH, ns.root, [NAME]);
    var next := Advance(ns, start, true, limits, ExpansionLimit(limits));
    assert start.pending[1..] == [];
    assert next.Ok? && next.value.current == id && next.value.pending == [];
    assert ResolveFrom(ns, next.value, true, limits, ExpansionLimit(limits)) == next;
  }

  // ----- The file -----

  lemma RootHasRoom(options: FormatOptions, limits: Limits)
    requires ShortNames(limits) && Format(UNFORMATTED, options, limits).1.Ok?
    ensures CoreInv(FormattedCore(options), limits)
    ensures var core := FormattedCore(options);
            && core.superblock.rootInode == 1 && core.table.inodes == map[1 := FreshInode(1, Directory, 493)]
            && core.dirs == map[1 := Dots(1, 1)] && Total(core.dirs) == 2
            && Directories.Find(core.dirs, 1, NAME).None?
            && core.allocation.used == {0} && core.allocation.count == options.blockCount >= 8
            && core.superblock.blockSize == options.blockSize && core.superblock.blockCount == options.blockCount
  {
    FormattedInv(options, limits);
    hide CoreInv, Allocation.Free;
    TotalPut(map[], 1, Dots(1, 1));
    assert map[][1 := Dots(1, 1)] == map[1 := Dots(1, 1)];
    hide Total;
    NoneInDots();
  }

  lemma NoneInDots()
    ensures FindIndex(Dots(1, 1), NormalizeName(NAME)).None?
  {
    var entries := Dots(1, 1);
    assert |entries[0].Key()| == 1 && entries[0].Key()[0] == 46;
    assert |entries[1].Key()| == 2;
    assert NormalizeName(NAME)[0] == 102;
    assert !entries[0].Named(NormalizeName(NAME)) && !entries[1].Named(NormalizeName(NAME));
  }

  lemma NameValidates(id: u64, limits: Limits)
    requires ShortNames(limits) && id > 0
    ensures NewEntry(id, Regular, NAME).Validate(limits).Ok? && !NewEntry(id, Regular, NAME).IsDot()
    ensures NewEntry(id, Regular, NAME).recordLength != 0
  {
  }

  lemma FileAdded(options: FormatOptions, limits: Limits)
    requires ShortNames(limits) && Format(UNFORMATTED, options, limits).1.Ok?
    ensures AddNode(FormattedCore(options), 1, NAME, Regular, 420, [], limits).1.Ok?
  {
    hide CoreInv, FormattedCore, Total, Geometry, Dots, Table.Valid, Table.Allocate, NameNode, Directories.Find;
    RootHasRoom(options, limits);
    var core := FormattedCore(options);
    ValidTable(core, limits);
    AllocateIsSmallest(core.table, limits, Regular, 420);
    assert 2 !in core.table.inodes;
    var (table, id) := core.table.Allocate(limits, Regular, 420);
    FileNamed(core, table, id.value, limits);
  }

  lemma FileNamed(core: Core, table: Table, id: u64, limits: Limits)
    requires ShortNames(limits) && id in table.inodes && id > 0
    requires 1 in core.dirs && Total(core.dirs) == 2 && Directories.Find(core.dirs, 1, NAME).None?
    ensures NameNode(core, table, id, 1, NAME, Regular, [], limits).1.Ok?
  {
    hide Total, Directories.Find, Table.Erase;
    NameValidates(id, limits);
    hide DirectoryEntry.Validate;
  }

  lemma ValidTable(core: Core, limits: Limits)
    requires CoreInv(core, limits)
    ensures core.table.Valid(limits)
  {
    hide Table.Valid;
  }

  /** What the creation leaves: an empty file that its path leads to. */
  lemma FileMade(options: FormatOptions, limits: Limits)
    requires ShortNames(limits) && Format(UNFORMATTED, options, limits).1.Ok?
    ensures FormattedCore(options).superblock.blockSize > 0
    ensures var fs := Step(Format(UNFORMATTED, options, limits).0, CreateFile(PATH, [], 420), limits).0;
            var at := Resolve(fs.core.Names(), PATH, fs.core.superblock.rootInode, true, limits);
            && Safe(fs, limits) && at.Ok? && at.value.inode in fs.core.table.inodes
            && fs.core.table.inodes[at.value.inode] == FreshInode(at.value.inode, Regular, 420)
            && fs.core.allocation.used == {0} && fs.core.allocation.count >= 8
            && fs.core.superblock.blockSize == options.blockSize > 0
  {
    hide FormattedCore, CoreInv, Total, Dots, Safe, Geometry, Journals.CanStart, FsInv;
    var start := Format(UNFORMATTED, options, limits).0;
    FormatEstablishes(UNFORMATTED, options, limits);
    RootHasRoom(options, limits);
    assert start.core == FormattedCore(options) && start.journal.active == 0 && EnsureWritable(start).Ok?;
    hide Format;
    SafePositive(start, limits);
    StepKeepsSafe(start, CreateFile(PATH, [], 420), limits);
    FileAdded(options, limits);
    CreatedCore(start, options, limits);
  }

  lemma CreatedCore(start: Fs, options: FormatOptions, limits: Limits)
    requires ShortNames(limits) && Format(UNFORMATTED, options, limits).1.Ok?
    requires start.core == FormattedCore(options) && start.journal.active == 0 && EnsureWritable(start).Ok?
    requires start.core.superblock.blockSize > 0
    requires AddNode(FormattedCore(options), 1, NAME, Regular, 420, [], limits).1.Ok?
    ensures var core := Step(start, CreateFile(PATH, [], 420), limits).0.core;
            var at := Resolve(core.Names(), PATH, core.superblock.rootInode, true, limits);
            && at.Ok? && at.value.inode in core.table.inodes
            && core.table.inodes[at.value.inode] == FreshInode(at.value.inode, Regular, 420)
            && core.allocation.used == {0} && core.allocation.count >= 8
            && core.superblock.blockSize == options.blockSize
  {
    hide Format, FormattedCore, CoreInv, Total, Dots, AddNode, ResolveParent, Resolve, Directories.Find, Finished;
    RootHasRoom(options, limits);
    var core := start.core;
    ParentIsRoot(core.Names(), limits);
    AddNodeEffect(core, 1, NAME, Regular, 420, [], limits);
    var (added, r) := AddNode(core, 1, NAME, Regular, 420, [], limits);
    var id := r.value;
    AddNodeMade(core, 1, NAME, Regular, 420, [], limits);
    AddedFacts(core, added, id);
    FinishedFacts(start.(core := added), limits);
    StepIs(start, added, id, limits);
    PathFinds(added.Names(), id, limits);
  }

  lemma StepIs(start: Fs, added: Core, id: u64, limits: Limits)
    requires start.core.superblock.blockSize > 0 && start.journal.active == 0 && EnsureWritable(start).Ok?
    requires ResolveParent(start.core.Names(), PATH, start.core.superblock.rootInode, limits) == Ok((1, NAME))
    requires Directories.Find(start.core.dirs, 1, NAME).None?
    requires AddNode(start.core, 1, NAME, Regular, 420, [], limits) == (added, Ok(id))
    ensures Step(start, CreateFile(PATH, [], 420), limits).0 == Finished(start.(core := added), limits)
  {
    hide AddNode, ResolveParent, Directories.Find, Finished;
  }

  lemma AddedFacts(core: Core, added: Core, id: u64)
    requires 1 in core.dirs && added == Added(core, added.table, id, 1, NAME, Regular, 420, [])
    requires 1 in core.table.inodes && id != 1 && core.table.inodes[1].inodeType == Directory
    requires FindIndex(core.dirs[1], NormalizeName(NAME)).None?
    ensures id in added.table.inodes && added.table.inodes[id] == FreshInode(id, Regular, 420)
    ensures 1 in added.table.inodes && added.table.inodes[1].inodeType == Directory
    ensures Directories.Find(added.dirs, 1, NAME) == Some(NewEntry(id, Regular, NAME))
    ensures added.allocation == core.allocation && added.superblock == core.superblock
  {
    AppendFinds(core.dirs, 1, NewEntry(id, Regular, NAME), 1, NAME);
  }

  lemma FinishedFacts(fs: Fs, limits: Limits)
    ensures var core := Finished(fs, limits).core;
            && core.Names() == fs.core.Names() && core.table == fs.core.table && core.allocation == fs.core.allocation
            && core.superblock.blockSize == fs.core.superblock.blockSize
  {
    hide Allocation.Free;
  }

  // ----- The run -----

  lemma WriteReported(fs: Fs, data: seq<byte>, limits: Limits)
    requires Safe(fs, limits) && limits.maxExtents == 1 && fs.core.superblock.blockSize > 0
    requires var at := Resolve(fs.core.Names(), PATH, fs.core.superblock.rootInode, true, limits);
             && at.Ok? && at.value.inode in fs.core.table.inodes
             && fs.core.table.inodes[at.value.inode] == FreshInode(at.value.inode, Regular, 420)
    requires fs.core.allocation.used == {0} && fs.core.allocation.count >= 8
    requires |data| == 2 * fs.core.superblock.blockSize <= limits.maxFileBytes
    ensures var (next, r) := Step(fs, WriteTo(PATH, 0, data), limits);
            r.Err? && !Clean(Check(next.core, next.journal, limits))
  {
    hide CoreInv, Safe, Resolve, WriteInode, Check, Clean;
    SafeParts(fs, limits);
    var id := Resolve(fs.core.Names(), PATH, fs.core.superblock.rootInode, true, limits).value.inode;
    RefusedGrowthIsReported(fs.core, fs.journal, id, data, limits);
  }

  /** Format, create a file and write two blocks into it, with room for a single extent: the write is
      refused after it took both blocks, and the report at the end of the run is not clean. */
  lemma UncleanRun(options: FormatOptions, data: seq<byte>, limits: Limits)
    requires ShortNames(limits) && limits.maxExtents == 1 && Format(UNFORMATTED, options, limits).1.Ok?
    requires |data| == 2 * options.blockSize <= limits.maxFileBytes
    ensures var end := FromFormat(options, [CreateFile(PATH, [], 420), WriteTo(PATH, 0, data)], limits);
            !Clean(Check(end.core, end.journal, limits))
  {
    hide Format, FormattedCore, Safe, Resolve, Step, Check, Clean;
    FileMade(options, limits);
    FormatEstablishes(UNFORMATTED, options, limits);
    var start := Format(UNFORMATTED, options, limits).0;
    SafePositive(start, limits);
    var made := Step(start, CreateFile(PATH, [], 420), limits).0;
    WriteReported(made, data, limits);
    var ops := [CreateFile(PATH, [], 420), WriteTo(PATH, 0, data)];
    TwoSteps(start, ops[0], ops[1], limits);
    assert ops == [ops[0], ops[1]];
  }

  lemma TwoSteps(fs: Fs, first: Op, second: Op, limits: Limits)
    requires fs.core.superblock.blockSize > 0 && Step(fs, first, limits).0.core.superblock.blockSize > 0
    ensures Run(fs, [first, second], limits) == Step(Step(fs, first, limits).0, second, limits).0
  {
    hide Step;
    var next := Step(fs, first, limits).0;
    assert [first, second][1..] == [second] && [second][1..] == [];
    assert Run(next, [second], limits) == Run(Step(next, second, limits).0, [], limits);
  }
}
