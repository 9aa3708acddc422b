/** When a hard link and a rename are accepted. */
module FsAccepts {
  import opened Base
  import opened Allocators
  import opened Inodes
  import opened InodeTables
  import opened Directories
  import opened Paths
  import opened PathTheorems
  import opened Trees
  import opened TreeOps
  import opened FsModel
  import opened FsInvariant
  import opened FsCreate
  import opened FsRemove
  import opened FsRemovePath
  import opened FsNodes
  import opened FsFits
  import opened FsRuns
  import opened FsRooted

  // ----- Hard links -----

  /** In a state in order a hard link is accepted exactly if the first path leads, its last
      link left alone, to an inode that is no directory and has fewer links than the limit, and the second
      path gives a new name that is not taken in a directory, while the tables have room for an entry. */
  lemma LinkIff(fs: Fs, existing: text, path: text, limits: Limits)
    requires Safe(fs, limits)
    ensures CreateHardLink(fs, existing, path, limits).1.Ok? <==>
              var names := fs.core.Names();
              var source := Resolve(names, existing, names.root, false, limits);
              var place := ResolveParent(names, path, names.root, limits);
              && source.Ok? && !names.IsDirectory(source.value.inode)
              && source.value.inode in names.inodes && names.inodes[source.value.inode].linkCount < limits.maxHardLinks
              && place.Ok? && NameIsFree(names.dirs, place.value.0, place.value.1, 0, limits)
  {
    hide CoreInv, TreeOk, LinksOk, OwnershipOk, StillOk, EntriesOk, Allocation.Valid, Table.Valid, Resolve, ResolveParent, NameIsFree, Core.Touched;
    SafeParts(fs, limits);
    InvPieces(fs.core, limits);
    var names := fs.core.Names();
    var source := Resolve(names, existing, names.root, false, limits);
    var place := ResolveParent(names, path, names.root, limits);
    if source.Ok? && source.value.inode in names.inodes && names.inodes[source.value.inode].inodeType != Directory && place.Ok? {
      var id := source.value.inode;
      ParentInTree(names, path, limits);
      InodeUsable(fs.core, id, limits);
      LinkNodeIff(fs.core, id, place.value.0, place.value.1, limits);
    }
  }

  lemma LinkNodeIff(core: Core, id: u64, parent: u64, name: text, limits: Limits)
    requires id in core.table.inodes && core.table.inodes[id].identifier != 0 && core.table.inodes[id].inodeType.Usable() && parent in core.dirs
    ensures LinkNode(core, id, parent, name, limits).Ok? <==> NameIsFree(core.dirs, parent, name, 0, limits)
  {
    hide Add, NameIsFree;
    AddIff(core.dirs, parent, core.table.inodes[id].identifier, core.table.inodes[id].inodeType, name, limits);
  }

  lemma InodeUsable(core: Core, id: u64, limits: Limits)
    requires CoreInv(core, limits) && id in core.table.inodes
    ensures core.table.inodes[id].identifier == id != 0 && core.table.inodes[id].inodeType.Usable()
  {
    hide TreeOk, LinksOk, OwnershipOk, EntriesOk, Allocation.Valid;
    InvPieces(core, limits);
  }

  // ----- Renames -----

  /** In a tree in order an entry is moved exactly if its name finds one and the new name is free. */
  lemma RenameEntriesIff(ns: Namespace, source: u64, sourceName: text, target: u64, targetName: text, limits: Limits)
    requires TreeOk(ns, limits) && target in ns.dirs
    ensures Rename(ns.dirs, source, sourceName, target, targetName, limits).1.Ok? <==>
            && sourceName != DOT && sourceName != DOTDOT && ns.Find(source, sourceName).Some?
            && NameIsFree(ns.dirs, target, targetName, 0, limits)
  {
    hide TreeOk, Total, Remove, Rename, Directories.Find, Bury, FindIndex;
    RemoveFinds(ns.dirs, source, sourceName);
    RenameParts(ns.dirs, source, sourceName, target, targetName, limits);
    if Remove(ns.dirs, source, sourceName).Ok? && ns.Find(target, targetName).None? {
      var k := FoundName(ns, source, sourceName, limits);
      MovedGoes(ns, source, k, target, targetName, limits);
    }
  }

  lemma RenameParts(dirs: Dirs, source: u64, sourceName: text, target: u64, targetName: text, limits: Limits)
    ensures Rename(dirs, source, sourceName, target, targetName, limits).1.Ok? <==>
            && RenameTargetOk(targetName, limits) && Directories.Find(dirs, target, targetName).None?
            && Remove(dirs, source, sourceName).Ok?
            && var (without, e) := Remove(dirs, source, sourceName).value;
               && Add(without, target, Moved(e, targetName), limits).Ok?
               && (e.entryType == Directory && source != target ==>
                     Reparent(Add(without, target, Moved(e, targetName), limits).value, e.inode, target).Some?)
  {
    hide Remove, Add, Reparent, Directories.Find, Undelete;
  }

  /** Once its name is buried the entry can be added, and its table redirected. */
  lemma MovedGoes(ns: Namespace, source: u64, k: nat, target: u64, targetName: text, limits: Limits)
    requires TreeOk(ns, limits) && target in ns.dirs && source in ns.dirs && 2 <= k < |ns.dirs[source]| && !ns.dirs[source][k].deleted
    requires ns.Find(target, targetName).None?
    ensures var without: Dirs := ns.dirs[source := Bury(ns.dirs[source], k)];
            var e := ns.dirs[source][k];
            && (Add(without, target, Moved(e, targetName), limits).Ok? <==> NameIsFree(ns.dirs, target, targetName, 0, limits))
            && (Add(without, target, Moved(e, targetName), limits).Ok? && e.entryType == Directory && source != target ==>
                  Reparent(Add(without, target, Moved(e, targetName), limits).value, e.inode, target).Some?)
  {
    hide TreeOk, Total, UniqueNames, Directories.Find, NameIsFree, Add, Reparent, InodeType.Usable;
    var e := ns.dirs[source][k];
    EntryFacts(ns, source, k, limits);
    UniqueIn(ns, source, limits);
    var without: Dirs := ns.dirs[source := Bury(ns.dirs[source], k)];
    BuryFinds(ns.dirs, source, k, target, targetName);
    BuryTotal(ns.dirs, source, k);
    var moved := Moved(e, targetName);
    MovedAdds(ns, without, target, moved, limits);
    if Add(without, target, moved, limits).Ok? && e.entryType == Directory && source != target {
      MovedReparents(ns, source, k, target, moved, limits);
    }
  }

  lemma BuryTotal(dirs: Dirs, d: u64, k: nat)
    requires d in dirs && k < |dirs[d]|
    ensures Total(dirs[d := Bury(dirs[d], k)]) == Total(dirs)
  {
    hide Total;
    TotalPut(dirs, d, Bury(dirs[d], k));
  }

  lemma EntryFacts(ns: Namespace, d: u64, k: nat, limits: Limits)
    requires TreeOk(ns, limits) && d in ns.dirs && 2 <= k < |ns.dirs[d]| && !ns.dirs[d][k].deleted
    ensures var e := ns.dirs[d][k];
            e.inode != 0 && e.entryType.Usable() && (e.entryType == Directory ==> e.inode in ns.dirs)
  {
    assert TableOk(d, ns.dirs[d], limits);
    TreeRoot(ns, limits);
    assert NameOk(ns, d, ns.dirs[d][k]);
  }

  lemma MovedAdds(ns: Namespace, without: Dirs, target: u64, moved: DirectoryEntry, limits: Limits)
    requires target in ns.dirs && without.Keys == ns.dirs.Keys && Total(without) == Total(ns.dirs)
    requires moved.inode != 0 && moved.entryType.Usable() && moved.recordLength == AlignedDirectoryLength(|moved.name|) && !moved.deleted
    requires ns.Find(target, moved.name).None? ==> Directories.Find(without, target, moved.name).None?
    requires ns.Find(target, moved.name).None?
    ensures Add(without, target, moved, limits).Ok? <==> NameIsFree(ns.dirs, target, moved.name, 0, limits)
  {
    hide Total, Directories.Find;
  }

  lemma MovedReparents(ns: Namespace, source: u64, k: nat, target: u64, moved: DirectoryEntry, limits: Limits)
    requires TreeOk(ns, limits) && source in ns.dirs && 2 <= k < |ns.dirs[source]| && moved.inode in ns.dirs
    requires var without: Dirs := ns.dirs[source := Bury(ns.dirs[source], k)]; target in without && Add(without, target, moved, limits).Ok?
    ensures var without: Dirs := ns.dirs[source := Bury(ns.dirs[source], k)];
            Reparent(Add(without, target, moved, limits).value, moved.inode, target).Some?
  {
    var d := moved.inode;
    TreeParent(ns, limits, d);
    assert TableOk(d, ns.dirs[d], limits);
    hide TreeOk, Total, FindIndex, Directories.Find;
    var without: Dirs := ns.dirs[source := Bury(ns.dirs[source], k)];
    var with: Dirs := Add(without, target, moved, limits).value;
    assert with[d][1] == ns.dirs[d][1];
    assert with[d][1].Named(NormalizeName(DOTDOT));
  }

  /** In a state in order a rename is accepted exactly if the source leads, its last link left
      alone, to something other than the root and its name finds an entry, and the target gives a new name
      that is not taken in a directory, while the tables have room for an entry. */
  lemma RenameIff(fs: Fs, source: text, target: text, limits: Limits)
    requires Safe(fs, limits)
    ensures RenamePath(fs, source, target, limits).1.Ok? <==>
              var names := fs.core.Names();
              var from := Resolve(names, source, names.root, false, limits);
              var place := ResolveParent(names, target, names.root, limits);
              && from.Ok? && from.value.inode != names.root
              && names.Find(from.value.parent, from.value.name).Some?
              && place.Ok? && NameIsFree(names.dirs, place.value.0, place.value.1, 0, limits)
  {
    hide CoreInv, TreeOk, LinksOk, OwnershipOk, StillOk, EntriesOk, Allocation.Valid, Table.Valid, Resolve, ResolveParent, NameIsFree, Core.Touched, Rename, Directories.Find;
    SafeParts(fs, limits);
    InvPieces(fs.core, limits);
    var names := fs.core.Names();
    var from := Resolve(names, source, names.root, false, limits);
    var place := ResolveParent(names, target, names.root, limits);
    if from.Ok? && from.value.inode != names.root && place.Ok? {
      ParentInTree(names, target, limits);
      ResolvedName(names, source, limits);
      RenameEntriesIff(names, from.value.parent, from.value.name, place.value.0, place.value.1, limits);
    }
  }
}
