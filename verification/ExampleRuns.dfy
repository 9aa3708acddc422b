/** Runs from a first format that show where the code reports an error late, and where it loses a directory. */
module ExampleRuns {
  import opened Base
  import opened Devices
  import opened Allocators
  import opened Inodes
  import opened InodeTables
  import opened Directories
  import opened Paths
  import opened PathTheorems
  import opened Trees
  import opened TreeOps
  import opened PathStability
  import Journals
  import opened FsModel
  import opened FsInvariant
  import opened FsCreate
  import opened FsRemove
  import opened FsRemovePath
  import opened FsRemoveFrame
  import opened FsNodes
  import opened FsFits
  import opened FsRename
  import opened FsRuns
  import opened FsTheorems
  import opened FsOutcomes
  import opened FsRooted
  import opened UncleanRuns

  // ----- An error reported after the change -----

  lemma RootTakes(options: FormatOptions, inodeType: InodeType, limits: Limits)
    requires ShortNames(limits) && Format(UNFORMATTED, options, limits).1.Ok?
    requires inodeType == Regular || (inodeType == Directory && limits.maxDirectoryEntries >= 5)
    ensures NodeFits(FormattedCore(options), 1, NAME, inodeType, [], limits)
  {
    hide FormattedCore, CoreInv, Geometry, Total, Directories.Find;
    RootHasRoom(options, limits);
    assert |FormattedCore(options).table.inodes| == 1;
  }

  /** Format with room for one journal record, begin a transaction, create a file: the journal refuses the
      record of the creation, the call reports an error, and the file is there. */
  lemma RefusedRecordStays(options: FormatOptions, limits: Limits)
    requires ShortNames(limits) && limits.maxJournalRecords == 1 && Format(UNFORMATTED, options, limits).1.Ok?
    ensures FormattedCore(options).superblock.blockSize > 0
    ensures var begun := Begin(Format(UNFORMATTED, options, limits).0, limits).0;
            begun.core.superblock.blockSize > 0 &&
            var (next, r) := Step(begun, CreateFile(PATH, [], 420), limits);
            r.Err? && Directories.Find(next.core.dirs, 1, NAME).Some? && FromFormat(options, [BeginTransaction, CreateFile(PATH, [], 420)], limits) == next
  {
    hide Format, FormattedCore, CoreInv, Total, Directories.Find, NodeFits, Safe, Creates, CreateNode, Made, FilesKept, Untouched, Begin;
    BegunFacts(options, limits);
    var start := Format(UNFORMATTED, options, limits).0;
    var begun := Begin(start, limits).0;
    CreateOutcome(begun, PATH, Regular, 420, [], [], limits);
    var next := CreateNode(begun, PATH, Regular, 420, [], [], limits).0;
    var made := MakeNode(begun.core, 1, NAME, Regular, 420, [], [], limits).1;
    MadeFinds(begun.core, next.core, made.value, 1, NAME, Regular);
    TwoSteps(start, BeginTransaction, CreateFile(PATH, [], 420), limits);
  }

  lemma BegunFacts(options: FormatOptions, limits: Limits)
    requires ShortNames(limits) && limits.maxJournalRecords == 1 && Format(UNFORMATTED, options, limits).1.Ok?
    ensures FormattedCore(options).superblock.blockSize > 0
    ensures var start := Format(UNFORMATTED, options, limits).0;
            var begun := Begin(start, limits).0;
            && start.core.superblock.blockSize > 0 && begun.core == start.core && begun.core.superblock.rootInode == 1
            && Safe(begun, limits) && begun.journal.active == 1 && |begun.journal.records| == 1 && 1 in begun.core.dirs
            && ResolveParent(begun.core.Names(), PATH, 1, limits) == Ok((1, NAME))
            && Creates(begun, PATH, Regular, [], [], limits)
  {
    hide FormattedCore, CoreInv, Geometry, Total, Dots, Directories.Find, NodeFits, Safe, Tracked, Upheld, Creates, ContentFits;
    FormatEstablishes(UNFORMATTED, options, limits);
    RootHasRoom(options, limits);
    RootTakes(options, Regular, limits);
    var start := Format(UNFORMATTED, options, limits).0;
    SafePositive(start, limits);
    BeginStep(start, limits);
    var begun := Begin(start, limits).0;
    UpheldSafe(start, begun, limits);
    FreshJournal(options, limits);
    ParentIsRoot(begun.core.Names(), limits);
    EmptyFits(begun.core, limits) by { SafeParts(begun, limits); }
    CreatesHere(begun, PATH, 1, NAME, Regular, limits);
  }

  lemma CreatesHere(fs: Fs, path: text, parent: u64, name: text, inodeType: InodeType, limits: Limits)
    requires fs.core.superblock.blockSize > 0 && EnsureWritable(fs).Ok?
    requires ResolveParent(fs.core.Names(), path, fs.core.superblock.rootInode, limits) == Ok((parent, name))
    requires NodeFits(fs.core, parent, name, inodeType, [], limits) && ContentFits(fs.core, 0, limits)
    ensures Creates(fs, path, inodeType, [], [], limits)
  {
    hide NodeFits, ContentFits, ResolveParent;
  }

  lemma MadeFinds(core: Core, next: Core, id: u64, parent: u64, name: text, inodeType: InodeType)
    requires core.device.blockSize > 0 && next.device.blockSize > 0
    requires Made(core, next, id, parent, name, inodeType, [], []) && parent in core.dirs
    ensures Directories.Find(next.dirs, parent, name) == Some(NewEntry(id, inodeType, name))
  {
    hide Directories.Find;
  }

  // ----- A directory moved below itself -----

  const PATH2: text := [SLASH, 102, SLASH, 102]
  const PATH3: text := [SLASH, 102, SLASH, 102, SLASH, 102]

  /** Limits with room for two directories and a path of three names. */
  predicate DeepNames(limits: Limits) {
    && ShortNames(limits) && limits.maxInodes >= 3 && limits.maxDirectoryEntries >= 9
    && limits.maxPathBytes >= 6 && limits.maxPathComponents >= 3 && ExpansionLimit(limits) >= 2
  }

  lemma DeepSplits(limits: Limits)
    requires DeepNames(limits)
    ensures Split(PATH2, limits) == Ok([NAME, NAME]) && Split(PATH3, limits) == Ok([NAME, NAME, NAME])
  {
    assert PATH2[1..2] == NAME && PATH2[3..4] == NAME && PATH3[1..2] == NAME && PATH3[3..4] == NAME && PATH3[5..6] == NAME;
    assert [] + [NAME] == [NAME] && [NAME] + [NAME] == [NAME, NAME] && [NAME, NAME] + [NAME] == [NAME, NAME, NAME];
    assert SkipSlashes(PATH2, 0) == 1 && NextSlash(PATH2, 1) == 2 && SkipSlashes(PATH2, 2) == 3 && NextSlash(PATH2, 3) == 4;
    assert SplitFrom(PATH2, 4, [NAME, NAME], limits) == Ok([NAME, NAME]);
    assert SplitFrom(PATH2, 2, [NAME], limits) == Ok([NAME, NAME]);
    assert SkipSlashes(PATH3, 0) == 1 && NextSlash(PATH3, 1) == 2 && SkipSlashes(PATH3, 2) == 3 && NextSlash(PATH3, 3) == 4;
    assert SkipSlashes(PATH3, 4) == 5 && NextSlash(PATH3, 5) == 6;
    assert SplitFrom(PATH3, 6, [NAME, NAME, NAME], limits) == Ok([NAME, NAME, NAME]);
    assert SplitFrom(PATH3, 4, [NAME, NAME], limits) == Ok([NAME, NAME, NAME]);
    assert SplitFrom(PATH3, 2, [NAME], limits) == Ok([NAME, NAME, NAME]);
  }

  lemma ParentPaths()
    ensures ParentPath(true, [NAME]) == PATH && ParentPath(true, [NAME, NAME]) == PATH2
    ensures DropTrailingDots([NAME, NAME]) == [NAME, NAME] && DropTrailingDots([NAME, NAME, NAME]) == [NAME, NAME, NAME]
  {
    assert [NAME][..0] == [] && [NAME, NAME][..1] == [NAME];
    assert ParentPath(true, []) == [SLASH];
  }

  /** "f" in the root leads to `a`, and "f" in `a` to `b`. */
  ghost predicate Nested(ns: Namespace, a: u64) {
    ns.IsDirectory(ns.root) && ns.IsDirectory(a) && Lookup(ns, ns.root, NAME) == Some(a)
  }

  lemma NestedResolves(ns: Namespace, a: u64, follow: bool, limits: Limits)
    requires DeepNames(limits) && Nested(ns, a)
    ensures var r := Resolve(ns, PATH, ns.root, follow, limits);
            r.Ok? && r.value.inode == a && r.value.parent == ns.root && r.value.name == NAME
  {
    PathSplits(limits);
    hide Lookup, Split, ResolveFrom;
    OneLeads(ns, a);
    NamesResolve(ns, PATH, [NAME], follow, limits);
    assert [NAME][..0] == [];
  }

  lemma OneLeads(ns: Namespace, a: u64)
    requires Nested(ns, a)
    ensures LeadsBy(ns, [NAME]) && Walk(ns, ns.root, [NAME]) == Some(a)
  {
    hide Lookup;
    WalkPush(ns, ns.root, [], NAME);
    assert [] + [NAME] == [NAME] && [NAME][..1] == [NAME];
  }

  lemma TwoLead(ns: Namespace, a: u64, b: u64)
    requires Nested(ns, a) && ns.IsDirectory(b) && Lookup(ns, a, NAME) == Some(b)
    ensures LeadsBy(ns, [NAME, NAME]) && Walk(ns, ns.root, [NAME, NAME]) == Some(b)
  {
    OneLeads(ns, a);
    hide Lookup;
    WalkPush(ns, ns.root, [NAME], NAME);
    assert [NAME] + [NAME] == [NAME, NAME] && [NAME, NAME][..1] == [NAME] && [NAME, NAME][..2] == [NAME, NAME];
    assert [NAME][..1] == [NAME];
  }

  lemma ParentInside(ns: Namespace, a: u64, limits: Limits)
    requires DeepNames(limits) && Nested(ns, a)
    ensures ResolveParent(ns, PATH2, ns.root, limits) == Ok((a, NAME))
  {
    DeepSplits(limits);
    ParentPaths();
    NestedResolves(ns, a, true, limits);
    hide Split, Resolve, DropTrailingDots, ParentPath;
    assert [NAME, NAME][..1] == [NAME];
  }

  lemma ParentDeeper(ns: Namespace, a: u64, b: u64, limits: Limits)
    requires DeepNames(limits) && Nested(ns, a) && ns.IsDirectory(b) && Lookup(ns, a, NAME) == Some(b)
    ensures ResolveParent(ns, PATH3, ns.root, limits) == Ok((b, NAME))
  {
    DeepSplits(limits);
    ParentPaths();
    TwoLead(ns, a, b);
    hide Split, DropTrailingDots, ParentPath, ResolveFrom, LeadsBy, Walk;
    NamesResolve(ns, PATH2, [NAME, NAME], true, limits);
    assert [NAME, NAME, NAME][..2] == [NAME, NAME];
  }

  /** What making a directory leaves, table by table. */
  lemma MkdirStep(fs: Fs, path: text, parent: u64, name: text, limits: Limits) returns (id: u64)
    requires Safe(fs, limits) && RootedFs(fs) && fs.journal.active == 0 && fs.core.superblock.blockSize > 0 && parent in fs.core.dirs
    requires ResolveParent(fs.core.Names(), path, fs.core.superblock.rootInode, limits) == Ok((parent, name))
    requires NodeFits(fs.core, parent, name, Directory, [], limits)
    ensures var next := Step(fs, CreateDirectory(path, 493), limits).0;
            && Safe(next, limits) && RootedFs(next) && next.journal == fs.journal && next.core.superblock.blockSize > 0
            && next.snapshot == fs.snapshot
            && next.core.superblock.rootInode == fs.core.superblock.rootInode
            && id != 0 && id !in fs.core.dirs && id !in fs.core.table.inodes
            && next.core.table.inodes == fs.core.table.inodes[id := FreshInode(id, Directory, 493)]
            && var dirs := fs.core.dirs[id := Dots(id, parent)];
               && next.core.dirs == dirs[parent := dirs[parent] + [NewEntry(id, Directory, name)]]
               && Total(next.core.dirs) == Total(fs.core.dirs) + 3
  {
    hide Safe, CoreInv, AddNode, NodeFits, Total, Dots, ResolveParent, Directories.Find, RootedFs, Rooted, Upheld, Finished;
    SafeParts(fs, limits);
    CreateStep(fs, path, Directory, 493, [], [], limits);
    CreateKeeps(fs, path, Directory, 493, [], [], limits);
    AddNodeIff(fs.core, parent, name, Directory, 493, [], limits);
    AddNodeEffect(fs.core, parent, name, Directory, 493, [], limits);
    TableKeysApart(fs.core, limits);
    var (added, r) := AddNode(fs.core, parent, name, Directory, 493, [], limits);
    id := r.value;
    FitsFresh(fs.core, parent, name, Directory, [], limits);
    MkdirIs(fs, path, parent, name, added, id, limits);
    FinishedFacts(fs.(core := added), limits);
    FinishedCore(fs.(core := added), limits);
    FinishedRest(fs.(core := added), limits);
    var next := Step(fs, CreateDirectory(path, 493), limits).0;
    UpheldSafe(fs, next, limits);
    SafePositive(next, limits);
    UsableIdentifier(next, id, limits);
    CreateSnapshot(fs, path, Directory, 493, [], [], limits);
    var dirs := fs.core.dirs[id := Dots(id, parent)];
    TotalPut(fs.core.dirs, id, Dots(id, parent));
    TotalPut(dirs, parent, dirs[parent] + [NewEntry(id, Directory, name)]);
    TwoDots(id, parent);
  }

  lemma UsableIdentifier(fs: Fs, id: u64, limits: Limits)
    requires Safe(fs, limits) && id in fs.core.table.inodes
    ensures id != 0
  {
    SafeParts(fs, limits);
    hide Safe, CoreInv;
    ValidTable(fs.core, limits);
  }

  lemma FinishedRest(fs: Fs, limits: Limits)
    ensures var next := Finished(fs, limits);
            next.journal == fs.journal && next.core.superblock.rootInode == fs.core.superblock.rootInode
  {
    hide Allocation.Free;
  }

  lemma TwoDots(id: u64, parent: u64)
    ensures |Dots(id, parent)| == 2
  {
  }

  lemma MkdirIs(fs: Fs, path: text, parent: u64, name: text, added: Core, id: u64, limits: Limits)
    requires fs.core.superblock.blockSize > 0 && fs.journal.active == 0 && EnsureWritable(fs).Ok?
    requires ResolveParent(fs.core.Names(), path, fs.core.superblock.rootInode, limits) == Ok((parent, name))
    requires Directories.Find(fs.core.dirs, parent, name).None?
    requires AddNode(fs.core, parent, name, Directory, 493, [], limits) == (added, Ok(id))
    ensures Step(fs, CreateDirectory(path, 493), limits).0 == Finished(fs.(core := added), limits)
  {
    hide AddNode, ResolveParent, Directories.Find, Finished;
  }

  lemma NoneInTheDots(id: u64, parent: u64)
    ensures FindIndex(Dots(id, parent), NormalizeName(NAME)).None?
  {
    var entries := Dots(id, parent);
    assert |entries[0].Key()| == 1 && entries[0].Key()[0] == 46;
    assert |entries[1].Key()| == 2;
    assert NormalizeName(NAME)[0] == 102;
    assert !entries[0].Named(NormalizeName(NAME)) && !entries[1].Named(NormalizeName(NAME));
  }

  /** The tables after both directories are made. */
  ghost predicate TwoDeep(core: Core, a: u64, b: u64) {
    && core.superblock.rootInode == 1 && a != 0 && a != 1 && b != 1 && a != b
    && core.dirs == map[1 := Dots(1, 1) + [NewEntry(a, Directory, NAME)], a := Dots(a, 1) + [NewEntry(b, Directory, NAME)], b := Dots(b, a)]
    && {1, a, b} <= core.table.inodes.Keys
    && core.table.inodes[1].inodeType == core.table.inodes[a].inodeType == core.table.inodes[b].inodeType == Directory
    && Total(core.dirs) == 8
  }

  lemma EntryFound(dirs: Dirs, d: u64, parent: u64, e: DirectoryEntry)
    requires d in dirs && dirs[d] == Dots(d, parent) + [e] && e.name == NAME && !e.deleted
    ensures Directories.Find(dirs, d, NAME) == Some(e) && FindIndex(dirs[d], NormalizeName(NAME)) == Some(2)
  {
    NoneInTheDots(d, parent);
    FindAppended(Dots(d, parent), e, NormalizeName(NAME));
  }

  lemma TwoDeepNested(core: Core, a: u64, b: u64)
    requires TwoDeep(core, a, b)
    ensures Nested(core.Names(), a) && core.Names().IsDirectory(b) && Lookup(core.Names(), a, NAME) == Some(b)
    ensures Directories.Find(core.dirs, 1, NAME) == Some(NewEntry(a, Directory, NAME)) && Directories.Find(core.dirs, b, NAME).None?
    ensures Below(core.dirs, a, b)
  {
    hide Total;
    EntryFound(core.dirs, 1, 1, NewEntry(a, Directory, NAME));
    EntryFound(core.dirs, a, 1, NewEntry(b, Directory, NAME));
    NoneInTheDots(b, a);
    assert BelowIn(core.dirs, a, Up(core.dirs, b), 0);
    assert BelowIn(core.dirs, a, b, 1);
  }

  /** The rename that moves the first directory below the second is accepted. */
  lemma DeepRename(fs: Fs, a: u64, b: u64, limits: Limits)
    requires DeepNames(limits) && Safe(fs, limits) && TwoDeep(fs.core, a, b)
    ensures MovesBelow(fs, PATH, PATH3, limits)
  {
    var names := fs.core.Names();
    SafeParts(fs, limits);
    SafeTree(fs, limits);
    TwoDeepNested(fs.core, a, b);
    NestedResolves(names, a, false, limits);
    ParentDeeper(names, a, b, limits);
    RenameGoes(fs.core, a, b, limits);
    hide Safe, CoreInv, TreeOk, LinksOk, Resolve, ResolveParent, Rename, TwoDeep, Below, Directories.Find, Nested;
  }

  lemma RenameGoes(core: Core, a: u64, b: u64, limits: Limits)
    requires DeepNames(limits) && TwoDeep(core, a, b) && TreeOk(core.Names(), limits)
    ensures Rename(core.dirs, 1, NAME, b, NAME, limits).1.Ok?
  {
    hide Total, DropTrailingDots;
    TwoDeepNested(core, a, b);
    EntryFound(core.dirs, 1, 1, NewEntry(a, Directory, NAME));
    TreeParent(core.Names(), limits, a);
    RemoveTotal(core.dirs, 1, NAME);
    hide TreeOk, Below, Nested, Lookup;
    var without: Dirs := Remove(core.dirs, 1, NAME).value.0;
    var moved := Moved(NewEntry(a, Directory, NAME), NAME);
    assert without[b] == core.dirs[b] && without[a] == core.dirs[a];
    NameValidates(a, limits);
    MovedValidates(moved, limits);
    assert Add(without, b, moved, limits).Ok?;
    var with: Dirs := Add(without, b, moved, limits).value;
    assert with[a] == core.dirs[a];
    assert Reparent(with, a, b).Some?;
  }

  lemma MovedValidates(e: DirectoryEntry, limits: Limits)
    requires ShortNames(limits) && e.name == NAME && e.inode > 0 && e.entryType == Directory
    requires e.recordLength == AlignedDirectoryLength(|NAME|)
    ensures e.Validate(limits).Ok? && !e.IsDot()
  {
  }

  lemma TwoMade(options: FormatOptions, limits: Limits) returns (a: u64, b: u64)
    requires DeepNames(limits) && Format(UNFORMATTED, options, limits).1.Ok?
    ensures FormattedCore(options).superblock.blockSize > 0
    ensures var start := Format(UNFORMATTED, options, limits).0;
            var first := Step(start, CreateDirectory(PATH, 493), limits).0;
            && start.core.superblock.blockSize > 0 && first.core.superblock.blockSize > 0
            && var second := Step(first, CreateDirectory(PATH2, 493), limits).0;
               && second.core.superblock.blockSize > 0 && Safe(second, limits) && RootedFs(second) && second.snapshot.None?
               && TwoDeep(second.core, a, b) && |second.core.table.inodes| == 3 && second.journal.active == 0
  {
    hide FormattedCore, CoreInv, Geometry, Total, Dots, Directories.Find, NodeFits, Safe, RootedFs, Step, ResolveParent, Lookup, Journals.CanStart, FsInv;
    FormatEstablishes(UNFORMATTED, options, limits);
    RootHasRoom(options, limits);
    RootTakes(options, Directory, limits);
    FormatRooted(UNFORMATTED, options, limits);
    FreshJournal(options, limits);
    var start := Format(UNFORMATTED, options, limits).0;
    SafePositive(start, limits);
    assert start.core == FormattedCore(options) && start.snapshot.None?;
    hide Format;
    ParentIsRoot(start.core.Names(), limits);
    a := MkdirStep(start, PATH, 1, NAME, limits);
    var first := Step(start, CreateDirectory(PATH, 493), limits).0;
    FirstMade(start.core, first.core, a, limits);
    ParentInside(first.core.Names(), a, limits);
    b := MkdirStep(first, PATH2, a, NAME, limits);
    SecondMade(first.core, Step(first, CreateDirectory(PATH2, 493), limits).0.core, a, b);
  }

  /** The tables after the first directory is made. */
  lemma FirstMade(core: Core, next: Core, a: u64, limits: Limits)
    requires DeepNames(limits) && core.superblock.rootInode == next.superblock.rootInode == 1
    requires core.dirs == map[1 := Dots(1, 1)] && core.table.inodes == map[1 := FreshInode(1, Directory, 493)] && Total(core.dirs) == 2
    requires a != 0 && a != 1 && next.table.inodes == core.table.inodes[a := FreshInode(a, Directory, 493)]
    requires var dirs := core.dirs[a := Dots(a, 1)];
             next.dirs == dirs[1 := dirs[1] + [NewEntry(a, Directory, NAME)]] && Total(next.dirs) == Total(core.dirs) + 3
    ensures next.dirs == map[1 := Dots(1, 1) + [NewEntry(a, Directory, NAME)], a := Dots(a, 1)]
    ensures Nested(next.Names(), a) && NodeFits(next, a, NAME, Directory, [], limits) && |next.table.inodes| == 2
  {
    hide Total;
    EntryFound(next.dirs, 1, 1, NewEntry(a, Directory, NAME));
    NoneInTheDots(a, 1);
    assert |next.table.inodes| == 2;
  }

  lemma SecondMade(core: Core, next: Core, a: u64, b: u64)
    requires core.superblock.rootInode == next.superblock.rootInode == 1 && a != 0 && a != 1 && b !in core.dirs
    requires core.dirs == map[1 := Dots(1, 1) + [NewEntry(a, Directory, NAME)], a := Dots(a, 1)] && Total(core.dirs) == 5
    requires {1, a} <= core.table.inodes.Keys && core.table.inodes[1].inodeType == core.table.inodes[a].inodeType == Directory
    requires b !in core.table.inodes && next.table.inodes == core.table.inodes[b := FreshInode(b, Directory, 493)]
    requires var dirs := core.dirs[b := Dots(b, a)];
             next.dirs == dirs[a := dirs[a] + [NewEntry(b, Directory, NAME)]] && Total(next.dirs) == Total(core.dirs) + 3
    ensures TwoDeep(next, a, b)
  {
    hide Total, Dots;
  }

  /** Format, make "/f" and "/f/f", rename "/f" to "/f/f/f": every call succeeds, and not everything
      is reached from the root any more. */
  lemma CutOffRun(options: FormatOptions, limits: Limits) returns (lost: u64)
    requires DeepNames(limits) && Format(UNFORMATTED, options, limits).1.Ok?
    ensures var end := FromFormat(options, [CreateDirectory(PATH, 493), CreateDirectory(PATH2, 493), RenameAt(PATH, PATH3)], limits);
            !Rooted(end.core.Names()) && lost in end.core.table.inodes && !Reached(end.core.Names(), lost)
  {
    hide Format, FormattedCore, Safe, Step, Rooted, Reached, Run, MovesBelow, TwoDeep, RootedFs;
    var a, b := TwoMade(options, limits);
    var start := Format(UNFORMATTED, options, limits).0;
    var first := Step(start, CreateDirectory(PATH, 493), limits).0;
    var second := Step(first, CreateDirectory(PATH2, 493), limits).0;
    DeepRename(second, a, b, limits);
    StepRootedIff(second, RenameAt(PATH, PATH3), limits);
    StepKeepsSafe(second, RenameAt(PATH, PATH3), limits);
    var end := Step(second, RenameAt(PATH, PATH3), limits).0;
    RenameStepIs(second, limits);
    NotRooted(end);
    RootedIffReached(end, limits);
    lost :| lost in end.core.table.inodes && !Reached(end.core.Names(), lost);
    ThreeSteps(start, CreateDirectory(PATH, 493), CreateDirectory(PATH2, 493), RenameAt(PATH, PATH3), limits);
  }

  lemma RenameStepIs(fs: Fs, limits: Limits)
    requires fs.core.superblock.blockSize > 0 && fs.snapshot.None?
    ensures Step(fs, RenameAt(PATH, PATH3), limits).0.snapshot.None?
  {
    RenameSnapshot(fs, PATH, PATH3, limits);
  }

  lemma NotRooted(fs: Fs)
    requires !RootedFs(fs) && fs.snapshot.None?
    ensures !Rooted(fs.core.Names())
  {
    hide Rooted;
  }

  lemma ThreeSteps(fs: Fs, first: Op, second: Op, third: Op, limits: Limits)
    requires fs.core.superblock.blockSize > 0 && Step(fs, first, limits).0.core.superblock.blockSize > 0
    requires Step(Step(fs, first, limits).0, second, limits).0.core.superblock.blockSize > 0
    ensures Run(fs, [first, second, third], limits) ==
            Step(Step(Step(fs, first, limits).0, second, limits).0, third, limits).0
  {
    hide Step;
    assert [first, second, third][1..] == [second, third];
    TwoSteps(Step(fs, first, limits).0, second, third, limits);
  }
}
