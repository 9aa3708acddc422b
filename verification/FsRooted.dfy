/** When every directory is reached from the root: always, but for a rename that moves a directory below
    itself. */
module FsRooted {
  import opened Base
  import opened Devices
  import opened Allocators
  import opened Inodes
  import opened InodeTables
  import opened Directories
  import opened Paths
  import opened PathTheorems
  import opened Trees
  import opened TreeOps
  import opened PathStability
  import opened FileData
  import opened FileWrites
  import opened FsModel
  import opened FsInvariant
  import opened FsCreate
  import opened FsRemove
  import opened FsRemovePath
  import opened FsRemoveFrame
  import opened FsNodes
  import opened FsRename
  import opened FsRuns
  import opened FsTheorems
  import opened FsOutcomes

  // ----- Trees hanging from the root -----

  /** Going up by ".." from any directory ends at the root. */
  ghost predicate Rooted(ns: Namespace) {
    forall d :: d in ns.dirs ==> Below(ns.dirs, ns.root, d)
  }

  /** No directory there was has another ".." now. */
  ghost predicate UpsKept(dirs: Dirs, next: Dirs) {
    forall d {:trigger Up(dirs, d)} {:trigger Up(next, d)} :: d in dirs && |dirs[d]| >= 2 ==>
      d in next && |next[d]| >= 2 && Up(next, d) == Up(dirs, d)
  }

  lemma {:induction false} BelowMoreIn(dirs: Dirs, next: Dirs, top: u64, d: u64, n: nat)
    requires UpsKept(dirs, next) && BelowIn(dirs, top, d, n)
    ensures BelowIn(next, top, d, n)
    decreases n
  {
    if d != top {
      assert Up(next, d) == Up(dirs, d);
      BelowMoreIn(dirs, next, top, Up(dirs, d), n - 1);
    }
  }

  /** Directories may be added anywhere in the tree. */
  lemma RootedMore(ns: Namespace, after: Namespace)
    requires Rooted(ns) && UpsKept(ns.dirs, after.dirs) && after.root == ns.root
    requires forall d :: d in after.dirs ==> d in ns.dirs || (|after.dirs[d]| >= 2 && Up(after.dirs, d) in ns.dirs)
    ensures Rooted(after)
  {
    hide UpsKept;
    forall d | d in after.dirs ensures Below(after.dirs, after.root, d) {
      var known := if d in ns.dirs then d else Up(after.dirs, d);
      assert Below(ns.dirs, ns.root, known);
      var n: nat :| BelowIn(ns.dirs, ns.root, known, n);
      BelowMoreIn(ns.dirs, after.dirs, ns.root, known, n);
      if d !in ns.dirs {
        assert BelowIn(after.dirs, after.root, d, n + 1);
      }
    }
  }

  lemma {:induction false} BelowAfterIn(before: Namespace, after: Namespace, d: u64, n: nat, limits: Limits)
    requires Shrunk(before, after) && TreeOk(after, limits) && d in after.dirs && BelowIn(before.dirs, before.root, d, n)
    ensures BelowIn(after.dirs, after.root, d, n)
    decreases n
  {
    if d != before.root {
      assert Thinned(before.dirs[d], after.dirs[d]);
      assert Up(after.dirs, d) == Up(before.dirs, d) && Up(after.dirs, d) in after.dirs;
      hide TreeOk, Shrunk, Thinned;
      BelowAfterIn(before, after, Up(after.dirs, d), n - 1, limits);
    }
  }

  /** Removing names leaves no directory without the ones above it. */
  lemma RootedLess(before: Namespace, after: Namespace, limits: Limits)
    requires Rooted(before) && Shrunk(before, after) && TreeOk(after, limits)
    ensures Rooted(after)
  {
    forall d | d in after.dirs ensures Below(after.dirs, after.root, d) {
      assert Below(before.dirs, before.root, d);
      hide Shrunk, TreeOk;
      var n: nat :| BelowIn(before.dirs, before.root, d, n);
      BelowAfterIn(before, after, d, n, limits);
    }
  }

  /** Parents are what ".." finds. */
  lemma UpsFound(ns: Namespace, after: Namespace, limits: Limits)
    requires TreeOk(ns, limits) && TreeOk(after, limits)
    requires forall d :: d in ns.dirs ==> d in after.dirs && ns.Find(d, DOTDOT) == after.Find(d, DOTDOT)
    ensures UpsKept(ns.dirs, after.dirs)
  {
    hide TreeOk, Directories.Find;
    forall d | d in ns.dirs && |ns.dirs[d]| >= 2 ensures |after.dirs[d]| >= 2 && Up(after.dirs, d) == Up(ns.dirs, d) {
      TreeParent(ns, limits, d);
      TreeParent(after, limits, d);
    }
  }

  // ----- Moving one directory -----

  /** Only the parent of `c` is another one. */
  ghost predicate Moves(ns: Namespace, after: Namespace, c: u64, target: u64) {
    && after.root == ns.root && after.dirs.Keys == ns.dirs.Keys
    && (forall d :: d in ns.dirs ==> |ns.dirs[d]| >= 2 && |after.dirs[d]| >= 2)
    && (forall d {:trigger Up(ns.dirs, d)} {:trigger Up(after.dirs, d)} :: d in ns.dirs ==>
          Up(ns.dirs, d) in ns.dirs && Up(after.dirs, d) == if d == c then target else Up(ns.dirs, d))
    && ns.root in ns.dirs && Up(ns.dirs, ns.root) == ns.root
    && c in ns.dirs && target in ns.dirs && c != ns.root
  }

  lemma BelowUp(dirs: Dirs, top: u64, d: u64)
    requires d in dirs && |dirs[d]| >= 2 && Below(dirs, top, Up(dirs, d))
    ensures Below(dirs, top, d)
  {
    var n: nat :| BelowIn(dirs, top, Up(dirs, d), n);
    assert BelowIn(dirs, top, d, n + 1);
  }

  lemma BelowDown(dirs: Dirs, top: u64, d: u64)
    requires Below(dirs, top, d) && d != top
    ensures d in dirs && |dirs[d]| >= 2 && Below(dirs, top, Up(dirs, d))
  {
    var n: nat :| BelowIn(dirs, top, d, n);
    assert BelowIn(dirs, top, Up(dirs, d), n - 1);
  }

  /** A way up that does not pass the moved directory is still there. */
  lemma {:induction false} AvoidsIn(ns: Namespace, after: Namespace, c: u64, target: u64, d: u64, n: nat)
    requires Moves(ns, after, c, target) && d in ns.dirs && BelowIn(ns.dirs, ns.root, d, n) && !Below(ns.dirs, c, d)
    ensures BelowIn(after.dirs, ns.root, d, n)
    decreases n
  {
    if d != ns.root {
      assert Up(after.dirs, d) == if d == c then target else Up(ns.dirs, d);
      hide Moves, Below;
      BelowTop(ns.dirs, c);
      if Below(ns.dirs, c, Up(ns.dirs, d)) {
        BelowUp(ns.dirs, c, d);
      }
      AvoidsIn(ns, after, c, target, Up(ns.dirs, d), n - 1);
    }
  }

  /** Any way up now leads to the root past the new place. */
  lemma {:induction false} StillBelow(ns: Namespace, after: Namespace, c: u64, target: u64, d: u64, n: nat)
    requires Moves(ns, after, c, target) && d in ns.dirs && BelowIn(ns.dirs, ns.root, d, n)
    requires Below(after.dirs, ns.root, target)
    ensures Below(after.dirs, ns.root, d)
    decreases n
  {
    if d == ns.root {
      BelowTop(after.dirs, ns.root);
    } else {
      assert Up(after.dirs, d) == if d == c then target else Up(ns.dirs, d);
      hide Below;
      if d != c {
        StillBelow(ns, after, c, target, Up(ns.dirs, d), n - 1);
      }
      BelowUp(after.dirs, ns.root, d);
    }
  }

  lemma {:induction false} RootIsOut(ns: Namespace, after: Namespace, c: u64, target: u64, n: nat)
    requires Moves(ns, after, c, target)
    ensures !BelowIn(ns.dirs, c, ns.root, n)
    decreases n
  {
    assert Up(ns.dirs, ns.root) == ns.root;
    if n > 0 {
      RootIsOut(ns, after, c, target, n - 1);
    }
  }

  /** Nothing below a directory that went below itself is reached from the root any more. */
  lemma {:induction false} CutOff(ns: Namespace, after: Namespace, c: u64, target: u64, d: u64, n: nat)
    requires Moves(ns, after, c, target) && Below(ns.dirs, c, target) && Below(ns.dirs, c, d) && d in ns.dirs
    ensures !BelowIn(after.dirs, ns.root, d, n)
    decreases n
  {
    if d == ns.root {
      var m: nat :| BelowIn(ns.dirs, c, ns.root, m);
      RootIsOut(ns, after, c, target, m);
    } else if n > 0 {
      assert Up(after.dirs, d) == if d == c then target else Up(ns.dirs, d);
      hide Below;
      if d != c {
        BelowDown(ns.dirs, c, d);
        CutOff(ns, after, c, target, Up(ns.dirs, d), n - 1);
      } else {
        CutOff(ns, after, c, target, target, n - 1);
      }
    }
  }

  /** Giving one directory another parent keeps the tree hanging from the root exactly when the new
      parent is not below the directory. */
  lemma MovedRooted(ns: Namespace, after: Namespace, c: u64, target: u64)
    requires Rooted(ns) && Moves(ns, after, c, target)
    ensures Rooted(after) <==> !Below(ns.dirs, c, target)
    ensures Below(ns.dirs, c, target) ==> forall d :: d in ns.dirs && Below(ns.dirs, c, d) ==> !Below(after.dirs, after.root, d)
  {
    if Below(ns.dirs, c, target) {
      forall d | d in ns.dirs && Below(ns.dirs, c, d) ensures !Below(after.dirs, after.root, d) {
        forall n: nat ensures !BelowIn(after.dirs, after.root, d, n) {
          CutOff(ns, after, c, target, d, n);
        }
      }
      BelowTop(ns.dirs, c);
    } else {
      var m: nat :| BelowIn(ns.dirs, ns.root, target, m);
      AvoidsIn(ns, after, c, target, target, m);
      assert Below(after.dirs, ns.root, target);
      forall d | d in after.dirs ensures Below(after.dirs, after.root, d) {
        assert Below(ns.dirs, ns.root, d);
        var n: nat :| BelowIn(ns.dirs, ns.root, d, n);
        StillBelow(ns, after, c, target, d, n);
      }
    }
  }

  // ----- Names added -----

  /** A new name is not "..". */
  lemma AddedUps(dirs: Dirs, next: Dirs, parent: u64, e: DirectoryEntry, d: u64)
    requires NameAdded(dirs, next, parent, e) && d in dirs && Directories.Find(dirs, d, DOTDOT).Some?
    ensures Directories.Find(next, d, DOTDOT) == Directories.Find(dirs, d, DOTDOT)
  {
    hide NormalizeName;
    assert SameSpot(d, DOTDOT, parent, e.name) ==> Directories.Find(dirs, d, DOTDOT) == Directories.Find(dirs, parent, e.name);
    hide FindIndex;
  }

  lemma AddedRooted(ns: Namespace, after: Namespace, parent: u64, e: DirectoryEntry, limits: Limits)
    requires Rooted(ns) && TreeOk(ns, limits) && TreeOk(after, limits) && after.root == ns.root
    requires NameAdded(ns.dirs, after.dirs, parent, e) && ns.dirs.Keys <= after.dirs.Keys
    requires parent in ns.dirs && forall d :: d in after.dirs && d !in ns.dirs ==> after.dirs[d] == Dots(d, parent)
    ensures Rooted(after)
  {
    hide TreeOk, NameAdded, Rooted, Directories.Find;
    forall d | d in ns.dirs ensures ns.Find(d, DOTDOT) == after.Find(d, DOTDOT) {
      TreeParent(ns, limits, d);
      AddedUps(ns.dirs, after.dirs, parent, e, d);
    }
    UpsFound(ns, after, limits);
    RootedMore(ns, after);
  }

  lemma SameRooted(ns: Namespace, after: Namespace, limits: Limits)
    requires Rooted(ns) && TreeOk(ns, limits) && TreeOk(after, limits) && after.root == ns.root
    requires SameNames(ns.dirs, after.dirs)
    ensures Rooted(after)
  {
    hide TreeOk, Rooted, Directories.Find;
    forall d | d in ns.dirs ensures ns.Find(d, DOTDOT) == after.Find(d, DOTDOT) {
    }
    UpsFound(ns, after, limits);
    RootedMore(ns, after);
  }

  // ----- Calls -----

  /** The tree now, and the one a rollback would restore, hang from the root. */
  ghost predicate RootedFs(fs: Fs) {
    Rooted(fs.core.Names()) && (fs.snapshot.Some? ==> Rooted(fs.snapshot.value.core.Names()))
  }

  lemma NewNodeSuper(core: Core, parent: u64, name: text, inodeType: InodeType, mode: u16, content: seq<byte>, symlink: text, limits: Limits)
    requires core.superblock.blockSize > 0
    ensures MakeNode(core, parent, name, inodeType, mode, content, symlink, limits).0.superblock == core.superblock
  {
    hide AddNode, FileData.WriteData, ReleaseInode, Remove, Table.Erase;
  }

  lemma CreateRoot(fs: Fs, path: text, inodeType: InodeType, mode: u16, content: seq<byte>, symlink: text, limits: Limits)
    requires fs.core.superblock.blockSize > 0
    ensures CreateNode(fs, path, inodeType, mode, content, symlink, limits).0.core.superblock.rootInode == fs.core.superblock.rootInode
  {
    hide MakeNode, ResolveParent, Directories.Find, Allocation.Free;
    var names := fs.core.Names();
    var place := ResolveParent(names, path, names.root, limits);
    if place.Ok? {
      NewNodeSuper(fs.core, place.value.0, place.value.1, inodeType, mode, content, symlink, limits);
    }
  }

  lemma CreateKeeps(fs: Fs, path: text, inodeType: InodeType, mode: u16, content: seq<byte>, symlink: text, limits: Limits)
    requires Safe(fs, limits) && inodeType.Usable() && RootedFs(fs)
    ensures fs.core.superblock.blockSize > 0
    ensures RootedFs(CreateNode(fs, path, inodeType, mode, content, symlink, limits).0)
  {
    hide Safe, CoreInv, CreateNode, ResolveParent, MakeNode, Creates, Made, Untouched, TreeOk, LinksOk, Rooted, Upheld, JournalRefuses, FilesKept, NameAdded, SameNames;
    CreateOutcome(fs, path, inodeType, mode, content, symlink, limits);
    CreateStep(fs, path, inodeType, mode, content, symlink, limits);
    CreateRoot(fs, path, inodeType, mode, content, symlink, limits);
    CreateSnapshot(fs, path, inodeType, mode, content, symlink, limits);
    var next := CreateNode(fs, path, inodeType, mode, content, symlink, limits).0;
    UpheldSafe(fs, next, limits);
    SafeTree(fs, limits);
    SafeTree(next, limits);
    if Creates(fs, path, inodeType, content, symlink, limits) {
      CreatesPlace(fs, path, inodeType, content, symlink, limits);
      ParentInTree(fs.core.Names(), path, limits);
      var (parent, name) := ResolveParent(fs.core.Names(), path, fs.core.superblock.rootInode, limits).value;
      var made := MakeNode(fs.core, parent, name, inodeType, mode, content, symlink, limits).1;
      MadeNames(fs.core, next.core, made.value, parent, name, inodeType, content, symlink);
      AddedRooted(fs.core.Names(), next.core.Names(), parent, NewEntry(made.value, inodeType, name), limits);
    } else {
      UntouchedNames(fs.core, next.core);
      SameRooted(fs.core.Names(), next.core.Names(), limits);
    }
  }

  lemma SafeTree(fs: Fs, limits: Limits)
    requires Safe(fs, limits)
    ensures TreeOk(fs.core.Names(), limits) && LinksOk(fs.core.Names())
  {
    hide CoreInv, TreeOk, LinksOk, OwnershipOk, StillOk, EntriesOk, Allocation.Valid, Table.Valid;
    InvPieces(fs.core, limits);
  }

  lemma CreatesPlace(fs: Fs, path: text, inodeType: InodeType, content: seq<byte>, symlink: text, limits: Limits)
    requires fs.core.superblock.blockSize > 0 && Creates(fs, path, inodeType, content, symlink, limits)
    ensures ResolveParent(fs.core.Names(), path, fs.core.superblock.rootInode, limits).Ok?
  {
    hide ResolveParent;
  }

  lemma MadeNames(core: Core, next: Core, id: u64, parent: u64, name: text, inodeType: InodeType, content: seq<byte>, symlink: text)
    requires core.device.blockSize > 0 && next.device.blockSize > 0
    requires Made(core, next, id, parent, name, inodeType, content, symlink)
    ensures NameAdded(core.dirs, next.dirs, parent, NewEntry(id, inodeType, name)) && core.dirs.Keys <= next.dirs.Keys
    ensures forall d :: d in next.dirs && d !in core.dirs ==> next.dirs[d] == Dots(d, parent)
  {
    hide NameAdded, Dots;
  }

  lemma UntouchedNames(core: Core, next: Core)
    requires core.device.blockSize > 0 && next.device.blockSize > 0 && Untouched(core, next)
    ensures SameNames(core.dirs, next.dirs)
  {
    hide SameNames, FilesKept;
  }

  lemma LinkKeeps(fs: Fs, existing: text, path: text, limits: Limits)
    requires Safe(fs, limits) && RootedFs(fs)
    ensures RootedFs(CreateHardLink(fs, existing, path, limits).0)
  {
    hide Safe, CoreInv, CreateHardLink, Resolve, ResolveParent, TreeOk, LinksOk, Rooted, Upheld, NameAdded;
    LinkOutcome(fs, existing, path, limits);
    LinkStep(fs, existing, path, limits);
    LinkSnapshot(fs, existing, path, limits);
    LinkRoot(fs, existing, path, limits);
    var (next, r) := CreateHardLink(fs, existing, path, limits);
    UpheldSafe(fs, next, limits);
    SafeTree(fs, limits);
    SafeTree(next, limits);
    if r.Ok? {
      ParentInTree(fs.core.Names(), path, limits);
      var (parent, name) := ResolveParent(fs.core.Names(), path, fs.core.superblock.rootInode, limits).value;
      AddedRooted(fs.core.Names(), next.core.Names(), parent, NewEntry(r.value, fs.core.table.inodes[r.value].inodeType, name), limits);
    }
  }

  lemma LinkRoot(fs: Fs, existing: text, path: text, limits: Limits)
    ensures CreateHardLink(fs, existing, path, limits).0.core.superblock.rootInode == fs.core.superblock.rootInode
  {
    hide Resolve, ResolveParent, Add;
  }

  lemma WriteKeeps(fs: Fs, path: text, offset: u64, data: seq<byte>, limits: Limits)
    requires Safe(fs, limits) && RootedFs(fs)
    ensures fs.core.superblock.blockSize > 0
    ensures RootedFs(Write(fs, path, offset, data, limits).0)
  {
    hide Safe, CoreInv, Write, Resolve, Rooted, Writes, JournalRefuses, WroteOver, BytesKept;
    WriteOutcome(fs, path, offset, data, limits);
    WriteSnapshot(fs, path, offset, data, limits);
    WriteRoot(fs, path, offset, data, limits);
    var next := Write(fs, path, offset, data, limits).0;
    if Writes(fs, path, offset, |data|, limits) {
      WritesPlace(fs, path, offset, |data|, limits);
      WroteDirs(fs.core, next.core, Resolve(fs.core.Names(), path, fs.core.superblock.rootInode, true, limits).value.inode, offset, data);
    } else {
      KeptDirs(fs.core, next.core);
    }
    SameWays(fs.core, next.core);
  }

  lemma WritesPlace(fs: Fs, path: text, offset: u64, length: nat, limits: Limits)
    requires fs.core.superblock.blockSize > 0 && Writes(fs, path, offset, length, limits)
    ensures var at := Resolve(fs.core.Names(), path, fs.core.superblock.rootInode, true, limits);
            at.Ok? && at.value.inode in fs.core.table.inodes
  {
    hide Resolve, WriteFits;
  }

  lemma WroteDirs(core: Core, next: Core, id: u64, offset: nat, data: seq<byte>)
    requires core.device.blockSize > 0 && next.device.blockSize > 0 && id in core.table.inodes && id in next.table.inodes
    requires WroteOver(core, next, id, offset, data)
    ensures next.dirs == core.dirs
  {
  }

  lemma KeptDirs(core: Core, next: Core)
    requires core.device.blockSize > 0 && next.device.blockSize > 0 && BytesKept(core, next)
    ensures next.dirs == core.dirs
  {
  }

  /** Only tables and root matter. */
  lemma SameWays(core: Core, next: Core)
    requires next.dirs == core.dirs && next.superblock.rootInode == core.superblock.rootInode
    ensures Rooted(next.Names()) == Rooted(core.Names())
  {
    hide Below;
  }

  lemma WriteRoot(fs: Fs, path: text, offset: u64, data: seq<byte>, limits: Limits)
    requires fs.core.superblock.blockSize > 0
    ensures Write(fs, path, offset, data, limits).0.core.superblock.rootInode == fs.core.superblock.rootInode
  {
    hide Resolve, FileData.WriteData, Allocation.Free;
  }

  lemma RemoveKeeps(fs: Fs, path: text, recursive: bool, limits: Limits)
    requires Safe(fs, limits) && RootedFs(fs)
    ensures RootedFs(RemovePath(fs, path, recursive, limits).0)
  {
    hide Safe, CoreInv, RemovePath, Rooted, TakenAway, Upheld, TreeOk, LinksOk, Shrunk;
    SafeParts(fs, limits);
    RemovePathEffect(fs, path, recursive, limits);
    RemoveStep(fs, path, recursive, limits);
    var next := RemovePath(fs, path, recursive, limits).0;
    UpheldSafe(fs, next, limits);
    SafeTree(next, limits);
    assert Shrunk(fs.core.Names(), next.core.Names());
    RootedLess(fs.core.Names(), next.core.Names(), limits);
  }

  // ----- Renaming -----

  /** An accepted rename that moves a directory to a place below it. */
  ghost predicate MovesBelow(fs: Fs, source: text, target: text, limits: Limits) {
    var names := fs.core.Names();
    var from := Resolve(names, source, names.root, false, limits);
    var place := ResolveParent(names, target, names.root, limits);
    && RenamePath(fs, source, target, limits).1.Ok? && from.Ok? && place.Ok?
    && var entry := names.Find(from.value.parent, from.value.name);
       && entry.Some? && entry.value.entryType == Directory && from.value.parent != place.value.0
       && Below(names.dirs, entry.value.inode, place.value.0)
  }

  lemma EntryIs(ns: Namespace, d: u64, name: text, limits: Limits)
    requires TreeOk(ns, limits) && name != DOT && name != DOTDOT && ns.Find(d, name).Some?
    ensures NameOk(ns, d, ns.Find(d, name).value)
    ensures ns.Find(d, name).value.entryType == Directory <==> ns.Find(d, name).value.inode in ns.dirs
  {
    assert TableOk(d, ns.dirs[d], limits);
    NameFound(ns.dirs, d, name, limits);
    var k := FindIndex(ns.dirs[d], NormalizeName(name)).value;
    assert NameOk(ns, d, ns.dirs[d][k]);
    DirectoryIffTable(ns, ns.dirs[d][k].inode, limits);
  }

  /** What ".." finds after a rename. */
  lemma RenamedUp(dirs: Dirs, next: Dirs, source: u64, sourceName: text, target: u64, targetName: text, d: u64)
    requires NameMoved(dirs, next, source, sourceName, target, targetName) && sourceName != DOTDOT
    requires d in dirs && Directories.Find(dirs, d, DOTDOT).Some?
    ensures var entry := Directories.Find(dirs, source, sourceName).value;
            Directories.Find(next, d, DOTDOT) ==
            if entry.entryType == Directory && source != target && d == entry.inode
            then Some(Directories.Find(dirs, d, DOTDOT).value.(inode := target)) else Directories.Find(dirs, d, DOTDOT)
  {
    DotKeys(sourceName);
    assert SameSpot(d, DOTDOT, target, targetName) ==> Directories.Find(dirs, d, DOTDOT) == Directories.Find(dirs, target, targetName);
    hide Directories.Find;
  }

  lemma MoveIs(ns: Namespace, after: Namespace, source: u64, sourceName: text, target: u64, targetName: text, limits: Limits)
    requires TreeOk(ns, limits) && TreeOk(after, limits) && after.root == ns.root && target in ns.dirs
    requires NameMoved(ns.dirs, after.dirs, source, sourceName, target, targetName) && sourceName != DOT && sourceName != DOTDOT
    ensures ns.Find(source, sourceName).Some?
    ensures var entry := ns.Find(source, sourceName).value;
            if entry.entryType == Directory && source != target then Moves(ns, after, entry.inode, target)
            else UpsKept(ns.dirs, after.dirs) && after.dirs.Keys == ns.dirs.Keys
  {
    hide TreeOk, NameMoved, Directories.Find, Up;
    MovedFinds(ns.dirs, after.dirs, source, sourceName, target, targetName);
    MovedKeys(ns.dirs, after.dirs, source, sourceName, target, targetName);
    EntryIs(ns, source, sourceName, limits);
    TreeRoot(ns, limits);
    forall d | d in ns.dirs ensures |ns.dirs[d]| >= 2 && |after.dirs[d]| >= 2 && Up(ns.dirs, d) in ns.dirs
      ensures var entry := ns.Find(source, sourceName).value;
              Up(after.dirs, d) == if entry.entryType == Directory && source != target && d == entry.inode then target else Up(ns.dirs, d)
    {
      MovedUp(ns, after, source, sourceName, target, targetName, d, limits);
    }
  }

  lemma MovedUp(ns: Namespace, after: Namespace, source: u64, sourceName: text, target: u64, targetName: text, d: u64, limits: Limits)
    requires TreeOk(ns, limits) && TreeOk(after, limits) && d in ns.dirs && d in after.dirs
    requires NameMoved(ns.dirs, after.dirs, source, sourceName, target, targetName) && sourceName != DOTDOT
    ensures |ns.dirs[d]| >= 2 && |after.dirs[d]| >= 2 && Up(ns.dirs, d) in ns.dirs && ns.Find(source, sourceName).Some?
    ensures var entry := ns.Find(source, sourceName).value;
            Up(after.dirs, d) == if entry.entryType == Directory && source != target && d == entry.inode then target else Up(ns.dirs, d)
  {
    hide TreeOk, NameMoved, Directories.Find;
    MovedFinds(ns.dirs, after.dirs, source, sourceName, target, targetName);
    TreeParent(ns, limits, d);
    TreeParent(after, limits, d);
    RenamedUp(ns.dirs, after.dirs, source, sourceName, target, targetName, d);
  }

  lemma MovedKeys(dirs: Dirs, next: Dirs, source: u64, sourceName: text, target: u64, targetName: text)
    requires NameMoved(dirs, next, source, sourceName, target, targetName)
    ensures next.Keys == dirs.Keys
  {
    hide Directories.Find;
  }

  lemma RenameRoot(fs: Fs, source: text, target: text, limits: Limits)
    ensures RenamePath(fs, source, target, limits).0.core.superblock.rootInode == fs.core.superblock.rootInode
  {
    hide Resolve, ResolveParent, Rename;
  }

  /** A rename keeps every directory reached from the root if and only if it does not move a directory to
      a place below it. */
  lemma RenameRootedIff(fs: Fs, source: text, target: text, limits: Limits)
    requires Safe(fs, limits) && RootedFs(fs)
    ensures RootedFs(RenamePath(fs, source, target, limits).0) <==> !MovesBelow(fs, source, target, limits)
  {
    hide Safe, CoreInv, RenamePath, Resolve, ResolveParent, TreeOk, LinksOk, Rooted, Upheld, NameMoved, Below, Directories.Find, Moves, UpsKept;
    RenameOutcome(fs, source, target, limits);
    RenameStep(fs, source, target, limits);
    RenameSnapshot(fs, source, target, limits);
    RenameRoot(fs, source, target, limits);
    var (next, r) := RenamePath(fs, source, target, limits);
    UpheldSafe(fs, next, limits);
    SafeTree(fs, limits);
    SafeTree(next, limits);
    if r.Ok? {
      var names, after := fs.core.Names(), next.core.Names();
      var from := Resolve(names, source, names.root, false, limits).value;
      var place := ResolveParent(names, target, names.root, limits).value;
      ParentInTree(names, target, limits);
      NotTheRoot(fs, source, target, limits);
      ResolvedName(names, source, limits);
      MoveIs(names, after, from.parent, from.name, place.0, place.1, limits);
      var entry := names.Find(from.parent, from.name).value;
      if entry.entryType == Directory && from.parent != place.0 {
        MovedRooted(names, after, entry.inode, place.0);
      } else {
        RootedMore(names, after);
      }
    }
  }

  lemma NotTheRoot(fs: Fs, source: text, target: text, limits: Limits)
    requires RenamePath(fs, source, target, limits).1.Ok?
    ensures var names := fs.core.Names();
            Resolve(names, source, names.root, false, limits).Ok? && Resolve(names, source, names.root, false, limits).value.inode != names.root
  {
    hide Resolve, ResolveParent, RenameEntries;
  }

  // ----- Runs -----

  /** The call that can cut directories off. */
  ghost predicate Detaches(fs: Fs, op: Op, limits: Limits) {
    op.RenameAt? && MovesBelow(fs, op.source, op.target, limits)
  }

  lemma FormatRooted(fs: Fs, options: FormatOptions, limits: Limits)
    requires Format(fs, options, limits).1.Ok?
    ensures RootedFs(Format(fs, options, limits).0)
  {
    var ns := Format(fs, options, limits).0.core.Names();
    assert ns.dirs == map[1 := Dots(1, 1)] && ns.root == 1;
    hide FormattedCore;
    BelowTop(ns.dirs, 1);
  }

  /** Every call keeps every directory reached from the root, in the tree of now and in the one a rollback
      would restore, if and only if it is not a rename that moves a directory below itself. */
  lemma StepRootedIff(fs: Fs, op: Op, limits: Limits)
    requires Safe(fs, limits) && RootedFs(fs) && fs.core.superblock.blockSize > 0
    ensures RootedFs(Step(fs, op, limits).0) <==> !Detaches(fs, op, limits)
  {
    hide Safe, Rooted, MovesBelow, CreateNode, Write, CreateHardLink, RemovePath, RenamePath, Format, Core.Refreshed;
    match op
    case CreateFile(path, content, mode) => CreateKeeps(fs, path, Regular, mode, content, [], limits);
    case CreateDirectory(path, mode) => CreateKeeps(fs, path, Directory, mode, [], [], limits);
    case CreateSymlink(target, path) => CreateKeeps(fs, path, SymbolicLink, 511, [], target, limits);
    case HardLink(existing, path) => LinkKeeps(fs, existing, path, limits);
    case WriteTo(path, offset, data) => WriteKeeps(fs, path, offset, data, limits);
    case RemoveAt(path, recursive) => RemoveKeeps(fs, path, recursive, limits);
    case RenameAt(source, target) => RenameRootedIff(fs, source, target, limits);
    case BeginTransaction =>
    case CommitTransaction => CommitWays(fs, limits);
    case RollbackTransaction =>
    case CheckpointJournal => CheckpointWays(fs, limits);
    case Reformat(options) =>
      if Format(fs, options, limits).1.Ok? {
        FormatRooted(fs, options, limits);
      } else {
        FormatRefused(fs, options, limits);
      }
  }

  lemma CommitWays(fs: Fs, limits: Limits)
    requires RootedFs(fs)
    ensures RootedFs(Commit(fs, limits).0)
  {
    hide Rooted, Allocation.Free;
    SameWays(fs.core, Commit(fs, limits).0.core);
  }

  lemma CheckpointWays(fs: Fs, limits: Limits)
    requires RootedFs(fs)
    ensures RootedFs(Checkpoint(fs, limits).0)
  {
    hide Rooted;
    SameWays(fs.core, Checkpoint(fs, limits).0.core);
  }

  lemma FormatRefused(fs: Fs, options: FormatOptions, limits: Limits)
    requires Format(fs, options, limits).1.Err?
    ensures Format(fs, options, limits).0 == fs
  {
    hide FormattedCore;
  }

  /** Every directory is reached from the root before, during and after the run. */
  ghost predicate AlwaysRooted(fs: Fs, ops: seq<Op>, limits: Limits)
    decreases |ops|
  {
    && RootedFs(fs)
    && (ops != [] && fs.core.superblock.blockSize > 0 ==> AlwaysRooted(Step(fs, ops[0], limits).0, ops[1..], limits))
  }

  /** No rename of the run moves a directory below itself. */
  ghost predicate NeverDetaches(fs: Fs, ops: seq<Op>, limits: Limits)
    decreases |ops|
  {
    ops != [] && fs.core.superblock.blockSize > 0 ==>
      !Detaches(fs, ops[0], limits) && NeverDetaches(Step(fs, ops[0], limits).0, ops[1..], limits)
  }

  lemma {:induction false} RunRootedIff(fs: Fs, ops: seq<Op>, limits: Limits)
    requires Safe(fs, limits) && RootedFs(fs)
    ensures AlwaysRooted(fs, ops, limits) <==> NeverDetaches(fs, ops, limits)
    ensures AlwaysRooted(fs, ops, limits) ==> RootedFs(Run(fs, ops, limits))
    decreases |ops|
  {
    hide Safe, RootedFs, Step, Detaches, Upheld;
    if ops != [] && fs.core.superblock.blockSize > 0 {
      StepKeepsSafe(fs, ops[0], limits);
      StepRootedIff(fs, ops[0], limits);
      var next := Step(fs, ops[0], limits).0;
      if RootedFs(next) {
        RunRootedIff(next, ops[1..], limits);
      } else {
        NotAlways(next, ops[1..], limits);
      }
    }
  }

  lemma NotAlways(fs: Fs, ops: seq<Op>, limits: Limits)
    requires !RootedFs(fs)
    ensures !AlwaysRooted(fs, ops, limits)
  {
    hide RootedFs, Step;
  }

  // ----- What it means -----

  /** Looking names up one by one from the root leads there. */
  ghost predicate Reached(ns: Namespace, id: u64) {
    exists components: Components :: Walk(ns, ns.root, components) == Some(id)
  }

  lemma ReachedBy(ns: Namespace, p: u64, i: nat, id: u64, limits: Limits)
    requires TreeOk(ns, limits) && NameAt(ns, p, i, id) && Reached(ns, p)
    ensures Reached(ns, id)
  {
    var name := ns.dirs[p][i].name;
    NameLooksUp(ns, p, i, id, limits);
    hide TreeOk, NameAt, Lookup;
    var components: Components :| Walk(ns, ns.root, components) == Some(p);
    WalkPush(ns, ns.root, components, name);
  }

  lemma NameLooksUp(ns: Namespace, p: u64, i: nat, id: u64, limits: Limits)
    requires TreeOk(ns, limits) && NameAt(ns, p, i, id)
    ensures Lookup(ns, p, ns.dirs[p][i].name) == Some(id)
  {
    assert TableOk(p, ns.dirs[p], limits);
    DirectoryTyped(ns, p, limits);
    UniqueIn(ns, p, limits);
    FindUnique(ns.dirs[p], i);
  }

  /** An inode other than the root has a name. */
  lemma SomeName(ns: Namespace, id: u64, limits: Limits) returns (p: u64, i: nat)
    requires TreeOk(ns, limits) && LinksOk(ns) && id in ns.inodes && id != ns.root
    ensures NameAt(ns, p, i, id) && (id in ns.dirs ==> |ns.dirs[id]| >= 2 && Up(ns.dirs, id) == p)
  {
    hide Links;
    AtLeastOneLink(ns, id, limits);
    OneName(ns, id, limits);
    assert Links(ns.dirs, id) != {};
    var link :| link in Links(ns.dirs, id);
    LinkMeans(ns.dirs, id, link.0, link.1);
    p, i := link.0, link.1;
    assert NameOk(ns, p, ns.dirs[p][i]);
  }

  lemma {:induction false} DirectoryReached(ns: Namespace, d: u64, n: nat, limits: Limits)
    requires TreeOk(ns, limits) && LinksOk(ns) && d in ns.dirs && BelowIn(ns.dirs, ns.root, d, n)
    ensures Reached(ns, d)
    decreases n
  {
    if d == ns.root {
      assert Walk(ns, ns.root, []) == Some(ns.root);
    } else {
      DirectoryTyped(ns, d, limits);
      hide TreeOk, LinksOk, Reached, NameAt;
      var p, i := SomeName(ns, d, limits);
      NamePlace(ns, p, i, d);
      DirectoryReached(ns, p, n - 1, limits);
      ReachedBy(ns, p, i, d, limits);
    }
  }

  lemma NamePlace(ns: Namespace, p: u64, i: nat, id: u64)
    requires NameAt(ns, p, i, id)
    ensures p in ns.dirs
  {
  }

  lemma {:induction false} WalkBelow(ns: Namespace, components: Components, d: u64, limits: Limits)
    requires TreeOk(ns, limits) && d in ns.dirs && Walk(ns, ns.root, components) == Some(d)
    ensures Below(ns.dirs, ns.root, d)
    decreases |components|
  {
    if components == [] {
      BelowTop(ns.dirs, ns.root);
    } else {
      var p := Walk(ns, ns.root, components[..|components| - 1]).value;
      var name := components[|components| - 1];
      EntryIs(ns, p, name, limits);
      DirectoryTyped(ns, d, limits);
      assert p in ns.dirs && Up(ns.dirs, d) == p;
      hide TreeOk, Lookup, Below;
      WalkBelow(ns, components[..|components| - 1], p, limits);
      BelowUp(ns.dirs, ns.root, d);
    }
  }

  /** Every directory hangs from the root if and only if every inode, of whatever type, is reached by
      looking names up from the root. */
  lemma RootedIffReached(fs: Fs, limits: Limits)
    requires Safe(fs, limits)
    ensures Rooted(fs.core.Names()) <==> forall id :: id in fs.core.table.inodes ==> Reached(fs.core.Names(), id)
  {
    var ns := fs.core.Names();
    SafeTree(fs, limits);
    TreeRoot(ns, limits);
    hide Safe, TreeOk, LinksOk, Below, NameAt;
    if Rooted(ns) {
      forall id | id in ns.inodes ensures Reached(ns, id) {
        InodeReached(ns, id, limits);
      }
    }
    if forall id :: id in ns.inodes ==> Reached(ns, id) {
      forall d | d in ns.dirs ensures Below(ns.dirs, ns.root, d) {
        assert ns.IsDirectory(d) && Reached(ns, d);
        var components: Components :| Walk(ns, ns.root, components) == Some(d);
        WalkBelow(ns, components, d, limits);
      }
    }
  }

  lemma InodeReached(ns: Namespace, id: u64, limits: Limits)
    requires TreeOk(ns, limits) && LinksOk(ns) && Rooted(ns) && id in ns.inodes
    ensures Reached(ns, id)
  {
    hide TreeOk, LinksOk, Reached, NameAt, BelowIn;
    if id == ns.root {
      RootReached(ns);
    } else {
      var p, i := SomeName(ns, id, limits);
      NamePlace(ns, p, i, id);
      assert Below(ns.dirs, ns.root, p);
      var n: nat :| BelowIn(ns.dirs, ns.root, p, n);
      DirectoryReached(ns, p, n, limits);
      ReachedBy(ns, p, i, id, limits);
    }
  }

  lemma RootReached(ns: Namespace)
    ensures Reached(ns, ns.root)
  {
    assert Walk(ns, ns.root, []) == Some(ns.root);
  }

  /** In a run from a first format every directory is reached from the root throughout exactly when no
      rename of it moves a directory below itself; then at its end every inode is reached by looking names
      up from the root. */
  lemma ReachedInRuns(options: FormatOptions, ops: seq<Op>, limits: Limits)
    requires Format(UNFORMATTED, options, limits).1.Ok?
    ensures var start := Format(UNFORMATTED, options, limits).0;
            && (AlwaysRooted(start, ops, limits) <==> NeverDetaches(start, ops, limits))
            && (NeverDetaches(start, ops, limits) ==>
                  var end := FromFormat(options, ops, limits).core;
                  Rooted(end.Names()) && forall id :: id in end.table.inodes ==> Reached(end.Names(), id))
  {
    hide Safe, FsInv, RootedFs, AlwaysRooted, NeverDetaches, Format, Rooted, Reached, Run, CountersLast;
    var start := Format(UNFORMATTED, options, limits).0;
    FreshStart(options, limits);
    FormatRooted(UNFORMATTED, options, limits);
    RunRootedIff(start, ops, limits);
    RunsAreSafe(options, ops, limits);
    RunIs(options, ops, limits);
    var end := FromFormat(options, ops, limits);
    RootedIffReached(end, limits);
    if RootedFs(end) {
      RootedNow(end);
    }
  }

  lemma RootedNow(fs: Fs)
    requires RootedFs(fs)
    ensures Rooted(fs.core.Names())
  {
    hide Rooted;
  }
}
