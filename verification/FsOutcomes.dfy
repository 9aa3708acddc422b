/** What each call leaves behind, seen as a map from names to entries and from files to bytes, and what
    it leaves when it reports an error. */
module FsOutcomes {
  import opened Base
  import opened Bytes
  import opened Devices
  import opened Allocators
  import opened Inodes
  import opened InodeTables
  import opened Directories
  import opened Paths
  import opened Trees
  import opened TreeOps
  import Journals
  import opened FileData
  import opened FileWrites
  import opened FsModel
  import opened FsInvariant
  import opened FsCreate
  import opened FsRemove
  import opened FsRemovePath
  import opened FsRemoveFrame
  import opened FsNodes
  import opened FsFits
  import opened FsRename
  import opened FsRuns
  import opened FsTheorems

  // ----- The journal has the last word -----

  /** An open transaction whose journal is full, or a payload too long for it. */
  predicate JournalRefuses(log: Journals.Log, payload: seq<byte>, limits: Limits) {
    log.active != 0 && (|log.records| >= limits.maxJournalRecords || |payload| > limits.maxFileBytes)
  }

  lemma JournaledOutcome(fs: Fs, t: Journals.JournalType, target: u64, payload: seq<byte>, limits: Limits)
    requires !t.Control()
    ensures var (next, j) := Journaled(fs, t, target, payload, limits);
            && (j.Err? <==> JournalRefuses(fs.journal, payload, limits))
            && next.core == fs.core
  {
  }

  lemma FinishedCore(fs: Fs, limits: Limits)
    ensures var core := Finished(fs, limits).core;
            core.table == fs.core.table && core.dirs == fs.core.dirs && core.device == fs.core.device
            && core.allocation == fs.core.allocation
  {
    hide Allocation.Free;
  }

  // ----- Creating -----

  /** The creation passes every check but the journal's: the path has a directory to put the name in, and
      name, inode and content fit. */
  predicate Creates(fs: Fs, path: text, inodeType: InodeType, content: seq<byte>, symlink: text, limits: Limits)
    requires fs.core.superblock.blockSize > 0
  {
    var names := fs.core.Names();
    var place := ResolveParent(names, path, names.root, limits);
    && EnsureWritable(fs).Ok? && place.Ok?
    && NodeFits(fs.core, place.value.0, place.value.1, inodeType, symlink, limits)
    && (inodeType == Regular ==> ContentFits(fs.core, |content|, limits))
  }

  /** No file, no name and no block differs. */
  ghost predicate Untouched(core: Core, next: Core)
    requires core.device.blockSize > 0 && next.device.blockSize > 0
  {
    && next.table.inodes == core.table.inodes && FilesKept(core, next)
    && next.allocation.used == core.allocation.used && SameNames(core.dirs, next.dirs)
  }

  /** A creation that passes the checks makes the node with its one name, and no other name or file
      differs, even when the journal then refuses the record and the call reports an error. A creation
      that does not pass them leaves every file, name and block as it was. */
  lemma CreateOutcome(fs: Fs, path: text, inodeType: InodeType, mode: u16, content: seq<byte>, symlink: text, limits: Limits)
    requires Safe(fs, limits) && inodeType.Usable()
    ensures fs.core.device.blockSize > 0 && fs.core.superblock.blockSize > 0
    ensures var (next, r) := CreateNode(fs, path, inodeType, mode, content, symlink, limits);
            && next.core.device.blockSize > 0
            && if Creates(fs, path, inodeType, content, symlink, limits) then
                 var (parent, name) := ResolveParent(fs.core.Names(), path, fs.core.superblock.rootInode, limits).value;
                 var made := MakeNode(fs.core, parent, name, inodeType, mode, content, symlink, limits).1;
                 && made.Ok? && Made(fs.core, next.core, made.value, parent, name, inodeType, content, symlink)
                 && FilesKept(fs.core, next.core)
                 && (r.Err? <==> JournalRefuses(fs.journal, name, limits)) && (r.Ok? ==> r == made)
               else
                 r.Err? && Untouched(fs.core, next.core)
  {
    hide CoreInv, Safe, ResolveParent, CreateAt, Directories.Find, Made, FilesKept, Untouched, MakeNode, JournalRefuses, NodeFits, ContentFits;
    hide TreeOk, LinksOk, OwnershipOk, StillOk, EntriesOk, Table.Valid, Allocation.Valid;
    SafePositive(fs, limits);
    SafeParts(fs, limits);
    UntouchedReflexive(fs.core);
    InvPieces(fs.core, limits);
    var names := fs.core.Names();
    var place := ResolveParent(names, path, names.root, limits);
    if place.Ok? {
      ParentInTree(names, path, limits);
      MakeNodeIff(fs.core, place.value.0, place.value.1, inodeType, mode, content, symlink, limits);
      FitsFresh(fs.core, place.value.0, place.value.1, inodeType, symlink, limits);
      CreateAtOutcome(fs, place.value.0, place.value.1, inodeType, mode, content, symlink, limits);
    }
  }

  lemma FitsFresh(core: Core, parent: u64, name: text, inodeType: InodeType, symlink: text, limits: Limits)
    ensures NodeFits(core, parent, name, inodeType, symlink, limits) ==> Directories.Find(core.dirs, parent, name).None?
  {
    hide Directories.Find, Total;
  }

  lemma UntouchedReflexive(core: Core)
    requires core.device.blockSize > 0
    ensures Untouched(core, core)
  {
  }

  lemma CreateAtOutcome(fs: Fs, parent: u64, name: text, inodeType: InodeType, mode: u16, content: seq<byte>, symlink: text, limits: Limits)
    requires Safe(fs, limits) && inodeType.Usable() && parent in fs.core.dirs
    requires fs.core.superblock.blockSize > 0 && fs.core.device.blockSize > 0
    ensures var (next, r) := CreateAt(fs, parent, name, inodeType, mode, content, symlink, limits);
            var made := MakeNode(fs.core, parent, name, inodeType, mode, content, symlink, limits).1;
            && next.core.device.blockSize > 0
            && if made.Ok? then
                 && Made(fs.core, next.core, made.value, parent, name, inodeType, content, symlink) && FilesKept(fs.core, next.core)
                 && (r.Err? <==> JournalRefuses(fs.journal, name, limits)) && (r.Ok? ==> r.value == made.value)
               else
                 r.Err? && Untouched(fs.core, next.core)
  {
    hide CoreInv, Safe, MakeNode, Journaled, Finished, Made, FilesKept, SameNames, JournalRefuses;
    SafeParts(fs, limits);
    MakeNodeEffect(fs.core, parent, name, inodeType, mode, content, symlink, limits);
    var (core, r) := MakeNode(fs.core, parent, name, inodeType, mode, content, symlink, limits);
    if r.Ok? {
      var start := fs.(core := core);
      JournaledOutcome(start, Journals.AllocateInode, r.value, name, limits);
      var next := Finished(Journaled(start, Journals.AllocateInode, r.value, name, limits).0, limits).core;
      FinishedCore(Journaled(start, Journals.AllocateInode, r.value, name, limits).0, limits);
      SameMade(fs.core, core, next, r.value, parent, name, inodeType, content, symlink);
    }
  }

  /** What was made does not depend on the counters. */
  lemma SameMade(core: Core, next: Core, last: Core, id: u64, parent: u64, name: text, inodeType: InodeType, content: seq<byte>, symlink: text)
    requires core.device.blockSize > 0 && next.device.blockSize > 0
    requires Made(core, next, id, parent, name, inodeType, content, symlink) && FilesKept(core, next)
    requires last.table == next.table && last.dirs == next.dirs && last.device == next.device
    ensures Made(core, last, id, parent, name, inodeType, content, symlink) && FilesKept(core, last)
  {
    hide NameAdded, Content;
  }

  // ----- Writing -----

  /** The write passes every check but the journal's: the path leads to a regular file, and its end fits
      the file limit, the free blocks and the extent limit. */
  predicate Writes(fs: Fs, path: text, offset: u64, length: nat, limits: Limits)
    requires fs.core.superblock.blockSize > 0
  {
    var names := fs.core.Names();
    var at := Resolve(names, path, names.root, true, limits);
    && EnsureWritable(fs).Ok? && at.Ok? && at.value.inode in names.inodes && names.inodes[at.value.inode].inodeType == Regular
    && WriteFits(fs.core.Files(), names.inodes[at.value.inode], offset, length, fs.core.superblock, limits)
  }

  ghost predicate BytesKept(core: Core, next: Core)
    requires core.device.blockSize > 0 && next.device.blockSize > 0
  {
    && next.dirs == core.dirs && next.table.inodes.Keys == core.table.inodes.Keys
    && forall x :: x in core.table.inodes ==>
         Content(next.device, next.table.inodes[x]) == Content(core.device, core.table.inodes[x])
  }

  /** A write that passes the checks is in the file's bytes, even when the journal then refuses the record
      and the call reports an error. A write that does not pass them leaves the bytes of every file. */
  lemma WriteOutcome(fs: Fs, path: text, offset: u64, data: seq<byte>, limits: Limits)
    requires Safe(fs, limits)
    ensures fs.core.device.blockSize > 0 && fs.core.superblock.blockSize > 0
    ensures var (next, r) := Write(fs, path, offset, data, limits);
            && next.core.device.blockSize > 0
            && if Writes(fs, path, offset, |data|, limits) then
                 var id := Resolve(fs.core.Names(), path, fs.core.superblock.rootInode, true, limits).value.inode;
                 && id in next.core.table.inodes && WroteOver(fs.core, next.core, id, offset, data)
                 && (r.Err? <==> JournalRefuses(fs.journal, LittleEndian(offset, 8) + LittleEndian(Wrap64(|data|), 8), limits))
               else
                 r.Err? && BytesKept(fs.core, next.core)
  {
    hide CoreInv, Resolve, Safe, WriteFile, WriteFits, Content, WroteOver, BytesKept, LittleEndian, JournalRefuses;
    SafePositive(fs, limits);
    SafeParts(fs, limits);
    BytesReflexive(fs.core);
    var names := fs.core.Names();
    var at := Resolve(names, path, names.root, true, limits);
    if at.Ok? && at.value.inode in names.inodes && names.inodes[at.value.inode].inodeType == Regular {
      WriteFileOutcome(fs, at.value.inode, offset, data, limits);
    }
  }

  lemma BytesReflexive(core: Core)
    requires core.device.blockSize > 0
    ensures BytesKept(core, core)
  {
  }

  lemma WriteFileOutcome(fs: Fs, id: u64, offset: u64, data: seq<byte>, limits: Limits)
    requires Safe(fs, limits) && fs.core.superblock.blockSize > 0 && fs.core.device.blockSize > 0
    requires id in fs.core.table.inodes && fs.core.table.inodes[id].inodeType == Regular
    ensures var (next, r) := WriteFile(fs, id, offset, data, limits);
            && next.core.device.blockSize > 0
            && if WriteFits(fs.core.Files(), fs.core.table.inodes[id], offset, |data|, fs.core.superblock, limits) then
                 && id in next.core.table.inodes && WroteOver(fs.core, next.core, id, offset, data)
                 && (r.Err? <==> JournalRefuses(fs.journal, LittleEndian(offset, 8) + LittleEndian(Wrap64(|data|), 8), limits))
               else
                 r.Err? && BytesKept(fs.core, next.core)
  {
    hide CoreInv, Safe, WriteInode, WriteFits, Content, Overlay, LittleEndian, Journaled, Finished, SameTypes, JournalRefuses;
    SafeParts(fs, limits);
    WriteInodeKeepsInv(fs.core, id, offset, data, limits);
    var (core, r) := WriteInode(fs.core, id, offset, data, limits);
    if r.Ok? {
      var payload := LittleEndian(offset, 8) + LittleEndian(Wrap64(|data|), 8);
      var start := fs.(core := core);
      JournaledOutcome(start, Journals.WriteData, id, payload, limits);
      FinishedCore(Journaled(start, Journals.WriteData, id, payload, limits).0, limits);
    }
  }

  // ----- Linking and renaming -----

  /** A hard link adds one name and one to the link count; refused, it changes nothing at all. */
  lemma LinkOutcome(fs: Fs, existing: text, path: text, limits: Limits)
    requires Safe(fs, limits)
    ensures var (next, r) := CreateHardLink(fs, existing, path, limits);
            var names := fs.core.Names();
            if r.Err? then next == fs
            else
              var source := Resolve(names, existing, names.root, false, limits);
              var place := ResolveParent(names, path, names.root, limits);
              && source.Ok? && source.value.inode == r.value && r.value in names.inodes && place.Ok?
              && var (id, inode) := (r.value, names.inodes[r.value]);
                 && inode.inodeType != Directory && id in next.core.table.inodes
                 && next.core.table.inodes == names.inodes[id := inode.(
                      linkCount := inode.linkCount + 1, generation := next.core.table.inodes[id].generation)]
                 && next.core.dirs.Keys == fs.core.dirs.Keys
                 && NameAdded(fs.core.dirs, next.core.dirs, place.value.0, NewEntry(id, inode.inodeType, place.value.1))
                 && next.core.Files() == fs.core.Files()
  {
    hide CoreInv, NameAdded, Resolve, ResolveParent, LinkNode, Safe, Directories.Find, NewEntry;
    SafeParts(fs, limits);
    var names := fs.core.Names();
    var source := Resolve(names, existing, names.root, false, limits);
    var place := ResolveParent(names, path, names.root, limits);
    if source.Ok? && source.value.inode in names.inodes && place.Ok? {
      var id := source.value.inode;
      if names.inodes[id].inodeType != Directory && names.inodes[id].linkCount < limits.maxHardLinks {
        LinkNodeEffect(fs.core, id, place.value.0, place.value.1, limits);
      }
    }
  }

  /** A rename moves one entry in the map from names to entries, and redirects ".." of a directory that
      changes its parent; refused, it changes nothing at all. The entry leads to what the source path
      resolves to, unless the path ends in "..": then it is looked up in the resolved directory itself,
      under the name the directory has, and what moves is a child of that name. */
  lemma RenameOutcome(fs: Fs, source: text, target: text, limits: Limits)
    requires Safe(fs, limits)
    ensures var (next, r) := RenamePath(fs, source, target, limits);
            var names := fs.core.Names();
            if r.Err? then next == fs
            else
              var from := Resolve(names, source, names.root, false, limits);
              var place := ResolveParent(names, target, names.root, limits);
              && from.Ok? && place.Ok? && from.value.inode == r.value
              && Directories.Find(fs.core.dirs, from.value.parent, from.value.name).Some?
              && (Directories.Find(fs.core.dirs, from.value.parent, from.value.name).value.inode == r.value
                  || (from.value.parent == r.value && r.value in fs.core.dirs))
              && NameMoved(fs.core.dirs, next.core.dirs, from.value.parent, from.value.name, place.value.0, place.value.1)
              && next.core.Files() == fs.core.Files() && next.core.table == fs.core.table
  {
    hide CoreInv, Safe, Resolve, ResolveParent, RenameEntries, NameMoved, TreeOk, LinksOk, OwnershipOk, StillOk, EntriesOk, Allocation.Valid, Table.Valid;
    SafeParts(fs, limits);
    InvPieces(fs.core, limits);
    var names := fs.core.Names();
    var from := Resolve(names, source, names.root, false, limits);
    var place := ResolveParent(names, target, names.root, limits);
    if from.Ok? && place.Ok? {
      ParentInTree(names, target, limits);
      ResolvedName(names, source, limits);
      EntriesOutcome(fs, from.value, place.value.0, place.value.1, limits);
    }
  }

  lemma EntriesOutcome(fs: Fs, from: ResolvedPath, parent: u64, name: text, limits: Limits)
    requires CoreInv(fs.core, limits) && parent in fs.core.dirs
    ensures var (next, r) := RenameEntries(fs, from, parent, name, limits);
            if r.Err? then next == fs
            else
              && r.value == from.inode && NameMoved(fs.core.dirs, next.core.dirs, from.parent, from.name, parent, name)
              && Directories.Find(fs.core.dirs, from.parent, from.name).Some?
              && next.core.Files() == fs.core.Files() && next.core.table == fs.core.table
  {
    hide CoreInv, Rename, NameMoved, TreeOk, LinksOk, OwnershipOk, StillOk, EntriesOk, Allocation.Valid, Table.Valid;
    InvPieces(fs.core, limits);
    var names := fs.core.Names();
    RenameEffect(names, from.parent, from.name, parent, name, limits);
    var (dirs, r) := Rename(fs.core.dirs, from.parent, from.name, parent, name, limits);
    assert r.Ok? ==> RenameEntries(fs, from, parent, name, limits).0.core.dirs == dirs;
    if r.Ok? {
      MovedFinds(fs.core.dirs, dirs, from.parent, from.name, parent, name);
    }
  }

  lemma MovedFinds(dirs: Dirs, next: Dirs, source: u64, sourceName: text, target: u64, targetName: text)
    requires NameMoved(dirs, next, source, sourceName, target, targetName)
    ensures Directories.Find(dirs, source, sourceName).Some?
  {
    hide Directories.Find;
  }

  // ----- Removing -----

  lemma WithoutFinds(dirs: Dirs, d: u64, spelled: text, name: text)
    requires d in dirs && UniqueNames(dirs[d])
    ensures Directories.Find(dirs[d := Without(dirs[d], spelled)], d, name) ==
            if NormalizeName(name) == NormalizeName(spelled) then None else Directories.Find(dirs, d, name)
  {
    hide UniqueNames, Bury;
    var found := FindIndex(dirs[d], NormalizeName(spelled));
    if found.Some? {
      assert dirs[d][found.value].Named(NormalizeName(spelled));
      BuryFinds(dirs, d, found.value, d, name);
    }
  }

  /** A removal, recursive or not, whole or broken off half way, takes no name but those below the place
      it resolved to and, once done, the resolved name itself: every other name finds what it found. A
      removal without recursion takes just the one name, and refused it changes nothing at all. */
  lemma RemoveOutcome(fs: Fs, path: text, recursive: bool, d: u64, name: text, limits: Limits)
    requires Safe(fs, limits) && d in fs.core.dirs
    ensures var (next, r) := RemovePath(fs, path, recursive, limits);
            var names := fs.core.Names();
            var place := Resolve(names, path, names.root, false, limits);
            if place.Err? then next == fs && r.Err?
            else
              var at := place.value;
              && (r.Ok? ==> r.value == at.inode && Directories.Find(next.core.dirs, at.parent, at.name).None?)
              && (!recursive && r.Err? ==> next == fs)
              && (if recursive then !Below(names.dirs, at.inode, d) else d != at.inode) ==>
                   d in next.core.dirs && Directories.Find(next.core.dirs, d, name) ==
                     if r.Ok? && SameSpot(d, name, at.parent, at.name) then None else names.Find(d, name)
  {
    hide CoreInv, Safe, RemovePath, Resolve, Below, TakenAway, NameDropped, Left, TreeOk, LinksOk, OwnershipOk, StillOk, EntriesOk, Allocation.Valid, Table.Valid, FindIndex, Bury, UniqueNames, OnlyBelow, Gone;
    SafeParts(fs, limits);
    InvPieces(fs.core, limits);
    var names := fs.core.Names();
    UniqueIn(names, d, limits);
    RemovePathEffect(fs, path, recursive, limits);
    RemovePathFrame(fs, path, recursive, limits);
    var (next, r) := RemovePath(fs, path, recursive, limits);
    var place := Resolve(names, path, names.root, false, limits);
    if place.Ok? {
      if !recursive {
        RemoveSingle(fs, path, limits);
      }
      if r.Ok? {
        GoneFinds(fs, next, path, r.value, limits);
      }
      if if recursive then !Below(names.dirs, place.value.inode, d) else d != place.value.inode {
        OutcomeTable(fs.core.dirs, next.core.dirs, place.value, recursive, r.Ok?, d, name);
      }
    }
  }

  lemma GoneFinds(fs: Fs, next: Fs, path: text, id: u64, limits: Limits)
    requires TakenAway(fs, next, path, id, limits)
    ensures var at := Resolve(fs.core.Names(), path, fs.core.superblock.rootInode, false, limits).value;
            at.inode == id && Directories.Find(next.core.dirs, at.parent, at.name).None?
  {
    hide Resolve, FindIndex;
  }

  lemma OutcomeTable(dirs: Dirs, next: Dirs, at: ResolvedPath, recursive: bool, done: bool, d: u64, name: text)
    requires d in dirs && UniqueNames(dirs[d])
    requires OnlyBelow(dirs, next, at, done)
    requires !recursive && done ==> NameDropped(dirs, next, at)
    requires !recursive && !done ==> next == dirs
    requires if recursive then !Below(dirs, at.inode, d) else d != at.inode
    ensures d in next && Directories.Find(next, d, name) ==
              if done && SameSpot(d, name, at.parent, at.name) then None else Directories.Find(dirs, d, name)
  {
    hide Below, FindIndex, Bury, UniqueNames;
    WithoutFinds(dirs, d, at.name, name);
    assert next[d] == if done && d == at.parent then Without(dirs[d], at.name) else dirs[d];
  }
}
