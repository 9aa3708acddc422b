/** Removing by path, with everything below a directory: what it keeps and what it gives back. */
module FsRemovePath {
  import opened Base
  import opened Devices
  import opened Allocators
  import opened Inodes
  import opened InodeTables
  import opened Directories
  import opened Paths
  import opened PathTheorems
  import opened Trees
  import opened TreeOps
  import opened PathStability
  import opened FileData
  import opened FsModel
  import opened FsInvariant
  import opened FsRemove

  // ----- One name -----

  /** No active name of that spelling in a directory. */
  predicate Gone(dirs: Dirs, d: u64, name: text) {
    d in dirs ==> FindIndex(dirs[d], NormalizeName(name)).None?
  }

  lemma BuriedNotFound(entries: Entries, k: nat)
    requires k < |entries| && !entries[k].deleted && UniqueNames(entries)
    ensures FindIndex(Bury(entries, k), entries[k].Key()).None?
  {
    var buried := Bury(entries, k);
    forall i | 0 <= i < |buried| ensures !buried[i].Named(entries[k].Key()) {
      if i != k {
        assert buried[i] == entries[i];
      }
    }
  }

  /** The entry that a name finds, as a place among the names of its directory. */
  lemma FoundName(ns: Namespace, d: u64, name: text, limits: Limits) returns (k: nat)
    requires TreeOk(ns, limits) && Remove(ns.dirs, d, name).Ok?
    ensures d in ns.dirs && FindIndex(ns.dirs[d], NormalizeName(name)) == Some(k)
    ensures NameAt(ns, d, k, ns.dirs[d][k].inode) && ns.dirs[d][k].inode in ns.inodes
    ensures Remove(ns.dirs, d, name) == Ok((ns.dirs[d := Bury(ns.dirs[d], k)], ns.dirs[d][k]))
    ensures Gone(ns.dirs[d := Bury(ns.dirs[d], k)], d, name)
  {
    k := FindIndex(ns.dirs[d], NormalizeName(name)).value;
    assert TableOk(d, ns.dirs[d], limits);
    NameFound(ns.dirs, d, name, limits);
    UniqueTable(d, ns.dirs[d], limits);
    assert NameOk(ns, d, ns.dirs[d][k]) by {
      hide TableOk;
    }
    hide TableOk, TreeOk, UniqueNames;
    BuriedNotFound(ns.dirs[d], k);
  }

  /** The three ways `DropName` can end once the name is found. */
  function Dropped(core: Core, d: u64, k: nat, id: u64): Core
    requires NameAt(core.Names(), d, k, id)
  {
    if core.table.inodes[id].inodeType == Directory then DropDirectory(core, d, k, id)
    else if core.table.inodes[id].linkCount >= 2 then DropOne(core, d, k, id)
    else DropLast(core, d, k, id)
  }

  lemma DropFileIs(core: Core, at: ResolvedPath, k: nat, limits: Limits)
    requires NameAt(core.Names(), at.parent, k, at.inode) && core.table.Valid(limits)
    requires Remove(core.dirs, at.parent, at.name) == Ok((core.dirs[at.parent := Bury(core.dirs[at.parent], k)], core.dirs[at.parent][k]))
    requires core.table.inodes[at.inode].inodeType != Directory && core.table.inodes[at.inode].linkCount >= 1
    requires core.table.inodes[at.inode].linkCount == 1 ==>
               ReleaseExtents(core.allocation, core.table.inodes[at.inode].extents).1 == Ok(())
    ensures DropName(core, at) == (Dropped(core, at.parent, k, at.inode), Ok(at.inode))
  {
    hide Bury, ReleaseExtents, Remove;
    var id, inode := at.inode, core.table.inodes[at.inode];
    assert core.dirs[at.parent][k].inode == id;
    if inode.linkCount == 1 {
      var gone := inode.(linkCount := 0, extents := [], allocatedBytes := 0);
      assert core.table.inodes[id := inode.(linkCount := 0)][id := gone] - {id} == core.table.inodes - {id};
    }
  }

  lemma DropDirectoryIs(core: Core, at: ResolvedPath, k: nat, limits: Limits)
    requires NameAt(core.Names(), at.parent, k, at.inode) && core.table.Valid(limits)
    requires Remove(core.dirs, at.parent, at.name) == Ok((core.dirs[at.parent := Bury(core.dirs[at.parent], k)], core.dirs[at.parent][k]))
    requires core.table.inodes[at.inode].inodeType == Directory && core.table.inodes[at.inode].extents == []
    requires at.inode in core.dirs && Vacant(core.dirs[at.inode]) && at.inode != at.parent
    ensures DropName(core, at) == (Dropped(core, at.parent, k, at.inode), Ok(at.inode))
  {
    hide Bury, Remove, Vacant;
    var id, inode := at.inode, core.table.inodes[at.inode];
    assert core.dirs[at.parent][k].inode == id;
    var fewer := Fewer(inode);
    assert ReleaseExtents(core.allocation, fewer.extents) == (core.allocation, Ok(()));
    hide ReleaseExtents;
    var gone := fewer.(extents := [], allocatedBytes := 0);
    assert core.table.inodes[id := fewer][id := gone] - {id} == core.table.inodes - {id};
    assert core.dirs[at.parent := Bury(core.dirs[at.parent], k)][id] == core.dirs[id];
  }

  /** What removing part of the tree leaves in place. */
  ghost predicate Reduced(core: Core, next: Core, limits: Limits) {
    CoreInv(next, limits) && Shrunk(core.Names(), next.Names()) && next.device == core.device
  }

  lemma DroppedReduced(core: Core, d: u64, k: nat, id: u64, limits: Limits)
    requires CoreInv(core, limits) && NameAt(core.Names(), d, k, id)
    requires id in core.dirs ==> Vacant(core.dirs[id])
    requires id != core.superblock.rootInode
    ensures Reduced(core, Dropped(core, d, k, id), limits)
    ensures Dropped(core, d, k, id).superblock == core.superblock
    ensures d in Dropped(core, d, k, id).dirs && Dropped(core, d, k, id).dirs[d] == Bury(core.dirs[d], k)
    ensures core.table.inodes[id].linkCount >= 1
    ensures core.table.inodes[id].inodeType == Directory <==> id in core.dirs
    ensures id in core.dirs ==> id != d && core.table.inodes[id].extents == []
    ensures core.table.inodes[id].inodeType != Directory && core.table.inodes[id].linkCount == 1 ==>
              ReleaseExtents(core.allocation, core.table.inodes[id].extents).1 == Ok(())
  {
    hide CoreInv, Shrunk, ReleaseExtents, TreeOk, LinksOk, OwnershipOk, StillOk, Table.Valid, Allocation.Valid, Vacant;
    hide DropOne, DropLast, DropDirectory, Bury;
    InvPieces(core, limits);
    DirectoryIffTable(core.Names(), id, limits);
    AtLeastOneLink(core.Names(), id, limits);
    DroppedParts(core, d, k, id);
    if core.table.inodes[id].inodeType == Directory {
      DropDirectoryInv(core, d, k, id, limits);
    } else if core.table.inodes[id].linkCount >= 2 {
      DropOneInv(core, d, k, id, limits);
    } else {
      DropLastInv(core, d, k, id, limits);
    }
  }

  lemma DroppedParts(core: Core, d: u64, k: nat, id: u64)
    requires NameAt(core.Names(), d, k, id)
    ensures var next := Dropped(core, d, k, id);
            && next.superblock == core.superblock && next.device == core.device
            && ((core.table.inodes[id].inodeType == Directory ==> id != d) ==>
                  d in next.dirs && next.dirs[d] == Bury(core.dirs[d], k))
  {
    hide Bury, ReleaseExtents;
  }

  lemma DroppedDirs(core: Core, d: u64, k: nat, id: u64)
    requires NameAt(core.Names(), d, k, id)
    requires core.table.inodes[id].inodeType == Directory <==> id in core.dirs
    ensures Dropped(core, d, k, id).dirs == core.dirs[d := Bury(core.dirs[d], k)] - {id}
  {
    hide Bury, ReleaseExtents;
  }

  /** The tables without the resolved name, and without the table of what it led to. */
  predicate NameDropped(dirs: Dirs, next: Dirs, at: ResolvedPath) {
    && at.parent in dirs && FindIndex(dirs[at.parent], NormalizeName(at.name)).Some?
    && next == dirs[at.parent := Bury(dirs[at.parent], FindIndex(dirs[at.parent], NormalizeName(at.name)).value)] - {at.inode}
  }

  lemma DirectoryIffTable(ns: Namespace, id: u64, limits: Limits)
    requires TreeOk(ns, limits) && id in ns.inodes
    ensures ns.inodes[id].inodeType == Directory <==> id in ns.dirs
  {
    TreeRoot(ns, limits);
  }

  lemma AtLeastOneLink(ns: Namespace, id: u64, limits: Limits)
    requires TreeOk(ns, limits) && LinksOk(ns) && id in ns.inodes
    ensures ns.inodes[id].linkCount >= 1
  {
    hide TreeOk, Links;
    assert LinkCountOk(ns, id);
  }

  /** Dropping a name either finds none and changes nothing, or takes exactly that name away. */
  lemma DropNameEffect(core: Core, at: ResolvedPath, limits: Limits)
    requires CoreInv(core, limits) && at.inode != core.superblock.rootInode
    requires Directories.Find(core.dirs, at.parent, at.name).Some? ==>
               Directories.Find(core.dirs, at.parent, at.name).value.inode == at.inode
    requires at.inode in core.dirs ==> Vacant(core.dirs[at.inode])
    ensures var (next, r) := DropName(core, at);
            && Reduced(core, next, limits) && next.superblock == core.superblock
            && (r.Ok? <==> at.name != DOT && at.name != DOTDOT && Directories.Find(core.dirs, at.parent, at.name).Some?)
            && (r.Err? ==> next == core)
            && (r.Ok? ==> r.value == at.inode && at.parent in next.dirs && Gone(next.dirs, at.parent, at.name)
                          && NameDropped(core.dirs, next.dirs, at))
  {
    hide CoreInv, TreeOk, LinksOk, OwnershipOk, StillOk, Table.Valid, Allocation.Valid, Vacant, NameAt, DropName, Dropped, ReleaseExtents, Bury, Shrunk;
    InvPieces(core, limits);
    ShrunkReflexive(core.Names());
    RemoveFinds(core.dirs, at.parent, at.name);
    if Remove(core.dirs, at.parent, at.name).Ok? {
      var k := FoundName(core.Names(), at.parent, at.name, limits);
      hide Reduced, Remove;
      DroppedReduced(core, at.parent, k, at.inode, limits);
      DroppedDirs(core, at.parent, k, at.inode);
      if core.table.inodes[at.inode].inodeType == Directory {
        DropDirectoryIs(core, at, k, limits);
      } else {
        DropFileIs(core, at, k, limits);
      }
    } else {
      DropNothing(core, at);
    }
  }

  lemma RemoveFinds(dirs: Dirs, d: u64, name: text)
    ensures Remove(dirs, d, name).Ok? <==> name != DOT && name != DOTDOT && Directories.Find(dirs, d, name).Some?
  {
    hide FindIndex, Bury;
  }

  lemma DropNothing(core: Core, at: ResolvedPath)
    requires Remove(core.dirs, at.parent, at.name).Err?
    ensures DropName(core, at).0 == core && DropName(core, at).1.Err?
  {
  }

  // ----- The path of a child -----

  /** The path, a slash, the name. */
  predicate ChildOf(full: text, path: text, name: text) {
    && |full| > |path| && full[..|path|] == path
    && path != [] && |full| > |name| && full[|full| - |name|..] == name
    && (|full| - |name| == |path| ==> path[|path| - 1] == SLASH)
    && (|full| - |name| != |path| ==> |full| - |name| == |path| + 1 && full[|path|] == SLASH)
  }

  lemma ChildPathIs(path: text, name: text)
    requires path != [] && Plain(name)
    ensures ChildOf(ChildPath(path, name), path, name)
  {
  }

  /** One more component, if the limits allow it. */
  function OneMore(components: Components, name: text, limits: Limits): Result<Components> {
    if |name| > limits.maxNameBytes then Err(InvalidName)
    else if |components| + 1 > limits.maxPathComponents then Err(ResourceLimit)
    else Ok(components + [name])
  }

  lemma {:induction false} SplitFromChild(full: text, path: text, name: text, position: nat, found: Components, limits: Limits)
    requires position <= |path| && Plain(name) && ChildOf(full, path, name)
    requires SplitFrom(path, position, found, limits).Ok?
    ensures SplitFrom(full, position, found, limits) == OneMore(SplitFrom(path, position, found, limits).value, name, limits)
    decreases |path| - position
  {
    var start := SkipSlashes(path, position);
    if start == |path| {
      SplitFromLast(full, path, name, position, found, limits);
    } else {
      SamePrefix(path, full, position, start);
      var end := NextSlash(path, start);
      SamePrefixNext(path, full, start, end);
      SameSlice(path, full, start, end);
      hide ChildOf, Plain;
      SplitFromChild(full, path, name, end, found + [path[start..end]], limits);
    }
  }

  lemma SameSlice(path: text, full: text, start: nat, end: nat)
    requires start <= end <= |path| <= |full| && full[..|path|] == path
    ensures full[start..end] == path[start..end]
  {
    assert forall i :: 0 <= i < |path| ==> full[..|path|][i] == full[i];
  }

  lemma SplitFromLast(full: text, path: text, name: text, position: nat, found: Components, limits: Limits)
    requires position <= |path| && Plain(name) && ChildOf(full, path, name)
    requires SkipSlashes(path, position) == |path|
    requires SplitFrom(path, position, found, limits).Ok?
    ensures SplitFrom(full, position, found, limits) == OneMore(SplitFrom(path, position, found, limits).value, name, limits)
  {
    var base := |full| - |name|;
    forall i | position <= i < base ensures full[i] == SLASH {
      if i < |path| {
        assert full[..|path|][i] == full[i];
      }
    }
    assert name[0] == full[base];
    SkipIs(full, position, base);
    SkipTwice(full, position, found, limits);
    assert SplitFrom(path, position, found, limits) == Ok(found);
    hide SplitFrom;
    LastComponent(full, name, base, found, limits);
  }

  lemma SkipIs(path: text, position: nat, at: nat)
    requires position <= at <= |path| && (at < |path| ==> path[at] != SLASH)
    requires forall i :: position <= i < at ==> path[i] == SLASH
    ensures SkipSlashes(path, position) == at
  {
  }

  lemma NextIs(path: text, position: nat, at: nat)
    requires position <= at <= |path| && (at < |path| ==> path[at] == SLASH)
    requires forall i :: position <= i < at ==> path[i] != SLASH
    ensures NextSlash(path, position) == at
  {
  }

  lemma SamePrefix(path: text, full: text, position: nat, start: nat)
    requires position <= start < |path| <= |full| && full[..|path|] == path && SkipSlashes(path, position) == start
    ensures SkipSlashes(full, position) == start
  {
    assert forall i :: 0 <= i < |path| ==> full[..|path|][i] == full[i];
    SkipIs(full, position, start);
  }

  lemma SamePrefixNext(path: text, full: text, position: nat, end: nat)
    requires position <= end <= |path| < |full| && full[..|path|] == path && NextSlash(path, position) == end
    requires path != [] && (path[|path| - 1] == SLASH || full[|path|] == SLASH)
    requires position < |path| && path[position] != SLASH
    ensures NextSlash(full, position) == end
  {
    assert forall i :: 0 <= i < |path| ==> full[..|path|][i] == full[i];
    NextIs(full, position, end);
  }

  lemma SkipTwice(path: text, position: nat, found: Components, limits: Limits)
    requires position <= |path|
    ensures SplitFrom(path, position, found, limits) == SplitFrom(path, SkipSlashes(path, position), found, limits)
  {
  }

  lemma LastComponent(full: text, name: text, base: nat, found: Components, limits: Limits)
    requires base <= |full| && full[base..] == name && Plain(name)
    ensures SplitFrom(full, base, found, limits) == OneMore(found, name, limits)
  {
    assert name[0] == full[base] != SLASH;
    forall i | base <= i < |full| ensures full[i] != SLASH {
      assert full[i] == name[i - base];
    }
    NextIs(full, base, |full|);
    SkipIs(full, base, base);
    assert full[base..|full|] == name;
    assert SplitFrom(full, |full|, found + [name], limits) == Ok(found + [name]) by {
      SkipIs(full, |full|, |full|);
    }
  }

  /** The components of a child's path: one more, if the path is not too long. */
  lemma SplitChildIs(path: text, name: text, limits: Limits)
    requires Plain(name) && Split(path, limits).Ok?
    ensures Split(ChildPath(path, name), limits) ==
            if |ChildPath(path, name)| > limits.maxPathBytes then Err(InvalidPath)
            else OneMore(Split(path, limits).value, name, limits)
  {
    ChildPathIs(path, name);
    ChildBytes(path, name);
    SplitFromChild(ChildPath(path, name), path, name, 0, [], limits);
  }

  lemma ChildBytes(path: text, name: text)
    requires path != []
    ensures 0 !in path && 0 !in name ==> 0 !in ChildPath(path, name)
  {
  }

  lemma SplitChild(path: text, name: text, limits: Limits)
    requires Plain(name) && Split(path, limits).Ok? && Split(ChildPath(path, name), limits).Ok?
    ensures Split(ChildPath(path, name), limits).value == Split(path, limits).value + [name]
  {
    SplitChildIs(path, name, limits);
  }

  /** The path of a child resolves, if at all, by one lookup of its name in the directory. */
  lemma ResolveChild(ns: Namespace, path: text, name: text, limits: Limits)
    requires ResolveCursor(ns, path, ns.root, false, limits).Ok?
    requires ns.IsDirectory(ResolveCursor(ns, path, ns.root, false, limits).value.current)
    requires Plain(name) && name != DOT && name != DOTDOT
    requires ResolveCursor(ns, ChildPath(path, name), ns.root, false, limits).Ok?
    ensures var at := Finish(ResolveCursor(ns, ChildPath(path, name), ns.root, false, limits).value);
            at.parent == ResolveCursor(ns, path, ns.root, false, limits).value.current && at.name == name
  {
    hide ResolveFrom, Split;
    SplitChild(path, name, limits);
    var budget := ExpansionLimit(limits);
    var start := Start(ns, path, ns.root, Split(path, limits).value);
    var child := ChildPath(path, name);
    assert Split(path, limits).Ok? && path != [] by { NotEmpty(path, limits); }
    assert child[0] == path[0];
    assert Start(ns, child, ns.root, Split(child, limits).value) == Extend(start, name);
    ResolveFromExtended(ns, start, name, limits, budget);
    LastLookup(ns, ResolveFrom(ns, start, false, limits, budget).value, name, limits, budget);
  }

  lemma NotEmpty(path: text, limits: Limits)
    requires Split(path, limits).Ok?
    ensures path != []
  {
  }

  lemma LastLookup(ns: Namespace, c: Cursor, name: text, limits: Limits, budget: nat)
    requires Bounded(c, limits) && (limits.maxSymlinkDepth == TWO32 - 1 ==> budget == 0)
    requires c.pending == [] && name != [] && name != DOT && name != DOTDOT
    requires ResolveFrom(ns, Extend(c, name), false, limits, budget).Ok?
    ensures var end := ResolveFrom(ns, Extend(c, name), false, limits, budget).value;
            end.parent == c.current && end.canonical == c.canonical + [name]
  {
    assert Extend(c, name).pending[1..] == [];
  }

  // ----- The names in a directory -----

  lemma {:induction false} ChildNamesMeans(entries: Entries, name: text)
    ensures name in ChildNames(entries) <==>
              exists i :: 0 <= i < |entries| && !entries[i].deleted && !entries[i].IsDot() && entries[i].name == name
  {
    if entries != [] {
      ChildNamesMeans(entries[1..], name);
      assert entries == [entries[0]] + entries[1..];
      if i :| 0 <= i < |entries| && !entries[i].deleted && !entries[i].IsDot() && entries[i].name == name {
        assert i > 0 ==> entries[1..][i - 1] == entries[i];
      }
    }
  }

  predicate ChildName(name: text) {
    Plain(name) && name != DOT && name != DOTDOT
  }

  lemma ChildNamesPlain(d: u64, entries: Entries, limits: Limits)
    requires TableOk(d, entries, limits)
    ensures forall name :: name in ChildNames(entries) ==> ChildName(name)
  {
    forall name | name in ChildNames(entries) ensures ChildName(name) {
      ChildNamesMeans(entries, name);
      var i :| 0 <= i < |entries| && !entries[i].deleted && !entries[i].IsDot() && entries[i].name == name;
      assert i >= 2;
      assert entries[i].Validate(limits).Ok?;
    }
  }

  /** Once every name it had is gone, a directory is vacant. */
  lemma AllGoneVacant(before: Namespace, after: Namespace, d: u64)
    requires Shrunk(before, after) && d in after.dirs
    requires forall name :: name in ChildNames(before.dirs[d]) ==> Gone(after.dirs, d, name)
    ensures Vacant(after.dirs[d])
  {
    var old', new' := before.dirs[d], after.dirs[d];
    assert Thinned(old', new');
    forall i | 0 <= i < |new'| && !new'[i].deleted ensures new'[i].IsDot() {
      assert new'[i] == old'[i];
      ActiveFound(new', i);
      ChildNamesMeans(old', old'[i].name);
    }
  }

  lemma ActiveFound(entries: Entries, i: nat)
    requires i < |entries| && !entries[i].deleted
    ensures FindIndex(entries, NormalizeName(entries[i].name)).Some?
  {
    assert entries[i].Named(NormalizeName(entries[i].name));
  }

  lemma GoneStays(before: Namespace, after: Namespace, d: u64, name: text, limits: Limits)
    requires Shrunk(before, after) && TreeOk(before, limits) && Gone(before.dirs, d, name)
    ensures Gone(after.dirs, d, name)
  {
    if d in after.dirs {
      assert TableOk(d, before.dirs[d], limits);
      hide TableOk;
      UniqueTable(d, before.dirs[d], limits);
      ThinnedFind(before.dirs[d], after.dirs[d], NormalizeName(name));
    }
  }

  // ----- By path -----

  /** Only the core and the dirty flag may differ, and the core only by what was removed. */
  ghost predicate Left(fs: Fs, next: Fs, limits: Limits) {
    Reduced(fs.core, next.core, limits) && next == fs.(core := next.core, dirty := next.dirty)
  }

  lemma LeftTransitive(a: Fs, b: Fs, c: Fs, limits: Limits)
    requires Left(a, b, limits) && Left(b, c, limits)
    ensures Left(a, c, limits)
  {
    hide CoreInv, Shrunk;
    ShrunkTransitive(a.core.Names(), b.core.Names(), c.core.Names());
  }

  lemma LeftReflexive(fs: Fs, limits: Limits)
    requires CoreInv(fs.core, limits)
    ensures Left(fs, fs, limits)
  {
    ShrunkReflexive(fs.core.Names());
  }

  lemma FinishedLeft(fs: Fs, limits: Limits)
    requires CoreInv(fs.core, limits)
    ensures Left(fs, Finished(fs, limits), limits)
  {
    hide CoreInv, Shrunk, Allocation.Free;
    var superblock := Finished(fs, limits).core.superblock;
    assert Finished(fs, limits).core == fs.core.(superblock := superblock);
    assert Finished(fs, limits).core.Names() == fs.core.Names();
    RefreshedCounters(fs.core, limits);
    SuperblockChange(fs.core, superblock, limits);
    ShrunkReflexive(fs.core.Names());
  }

  /** How a resolved path ends: by a name found in the parent, or at the root or a directory that is
      its own parent because the last step was "..". */
  lemma ResolvedName(ns: Namespace, path: text, limits: Limits)
    requires TreeOk(ns, limits) && Resolve(ns, path, ns.root, false, limits).Ok?
    ensures var at := Resolve(ns, path, ns.root, false, limits).value;
            || at.inode == ns.root
            || (at.name != DOT && at.name != DOTDOT
                && ((at.parent == at.inode && at.inode in ns.dirs)
                    || (ns.Find(at.parent, at.name).Some? && ns.Find(at.parent, at.name).value.inode == at.inode)))
  {
    hide TreeOk, ParentsAgree, ResolveCursor, OnPath;
    TreeParentsAgree(ns, limits);
    CanonicalLeadsThere(ns, path, false, limits);
    OnPathName(ns, ResolveCursor(ns, path, ns.root, false, limits).value, limits);
  }

  lemma OnPathName(ns: Namespace, c: Cursor, limits: Limits)
    requires TreeOk(ns, limits) && OnPath(ns, c)
    ensures var at := Finish(c);
            || at.inode == ns.root
            || (at.name != DOT && at.name != DOTDOT
                && ((at.parent == at.inode && at.inode in ns.dirs)
                    || (ns.Find(at.parent, at.name).Some? && ns.Find(at.parent, at.name).value.inode == at.inode)))
  {
    TreeRoot(ns, limits);
    hide TreeOk, Namespace.Find, Render;
    if c.canonical != [] {
      assert Walk(ns, ns.root, c.canonical) == Some(c.current);
    }
  }

  lemma VacantFindsNothing(ns: Namespace, d: u64, name: text)
    requires d in ns.dirs && Vacant(ns.dirs[d]) && name != DOT && name != DOTDOT
    ensures ns.Find(d, name).None?
  {
    if ns.Find(d, name).Some? {
      var i := FoundEntry(ns, d, name);
    }
  }

  /** After the children are gone, the name of the resolved path still leads to its inode or nowhere. */
  lemma StillNamed(before: Namespace, after: Namespace, path: text, limits: Limits)
    requires TreeOk(before, limits) && Shrunk(before, after) && Resolve(before, path, before.root, false, limits).Ok?
    requires var at := Resolve(before, path, before.root, false, limits).value;
             at.inode != before.root && (at.inode in after.dirs ==> Vacant(after.dirs[at.inode]))
    ensures var at := Resolve(before, path, before.root, false, limits).value;
            after.Find(at.parent, at.name).Some? ==> after.Find(at.parent, at.name).value.inode == at.inode
  {
    var at := Resolve(before, path, before.root, false, limits).value;
    ResolvedName(before, path, limits);
    ShrunkFind(before, after, at.parent, at.name, limits);
    hide TreeOk, Shrunk, Resolve, Vacant;
    if at.parent == at.inode && at.inode in after.dirs {
      VacantFindsNothing(after, at.inode, at.name);
    }
  }

  /** Removing by path, whether it succeeds or stops half way: the invariant holds, the tree only
      loses names, and a success has taken the resolved name away. */
  lemma {:induction false} RemovePathEffect(fs: Fs, path: text, recursive: bool, limits: Limits)
    requires CoreInv(fs.core, limits)
    ensures var (next, r) := RemovePath(fs, path, recursive, limits);
            && Left(fs, next, limits)
            && (r.Ok? ==> TakenAway(fs, next, path, r.value, limits))
    decreases Headroom(path, limits), 1, 0
  {
    hide CoreInv, EntriesOk, NameDropped, TreeOk, Shrunk, Gone, Resolve, ResolveCursor, Left, DropName, RemoveChildren, ChildNames, LinksOk, OwnershipOk, StillOk, Table.Valid, Allocation.Valid, TakenAway, Finished;
    LeftReflexive(fs, limits);
    var names := fs.core.Names();
    if EnsureWritable(fs).Ok? && Resolve(names, path, names.root, false, limits).Ok? {
      var at := Resolve(names, path, names.root, false, limits).value;
      if at.inode != names.root && at.inode in names.inodes {
        var children := if names.IsDirectory(at.inode) && at.inode in names.dirs then ChildNames(names.dirs[at.inode]) else [];
        if children == [] || recursive {
          InvPieces(fs.core, limits);
          DirectoryIffTable(names, at.inode, limits);
          PathFits(names, path, limits);
          ShrunkReflexive(names);
          ChildrenPlain(names, at.inode, limits);
          RemoveChildrenEffect(names, fs, path, children, limits);
          var (emptied, r) := RemoveChildren(fs, path, children, limits);
          if r.Ok? {
            RemoveEmptied(fs, emptied, path, limits);
          }
        }
      }
    }
  }

  /** The name a path resolved to before is there no more. */
  ghost predicate TakenAway(fs: Fs, next: Fs, path: text, id: u64, limits: Limits) {
    && Resolve(fs.core.Names(), path, fs.core.superblock.rootInode, false, limits).Ok?
    && var at := Resolve(fs.core.Names(), path, fs.core.superblock.rootInode, false, limits).value;
       at.inode == id && at.parent in next.core.dirs && Gone(next.core.dirs, at.parent, at.name)
  }

  lemma PathFits(ns: Namespace, path: text, limits: Limits)
    requires Resolve(ns, path, ns.root, false, limits).Ok?
    ensures |path| <= limits.maxPathBytes && ResolveCursor(ns, path, ns.root, false, limits).Ok?
    ensures ResolveCursor(ns, path, ns.root, false, limits).value.current == Resolve(ns, path, ns.root, false, limits).value.inode
  {
  }

  lemma ChildrenPlain(ns: Namespace, d: u64, limits: Limits)
    requires TreeOk(ns, limits)
    ensures d in ns.dirs ==> forall name :: name in ChildNames(ns.dirs[d]) ==> ChildName(name)
  {
    if d in ns.dirs {
      assert TableOk(d, ns.dirs[d], limits);
      ChildNamesPlain(d, ns.dirs[d], limits);
    }
  }

  /** The last part of a removal, once everything below is gone. */
  lemma RemoveEmptied(fs: Fs, emptied: Fs, path: text, limits: Limits)
    requires CoreInv(fs.core, limits) && Left(fs, emptied, limits)
    requires var names := fs.core.Names();
             && Resolve(names, path, names.root, false, limits).Ok?
             && var at := Resolve(names, path, names.root, false, limits).value;
                && at.inode != names.root && at.inode in names.inodes
                && (at.inode in names.dirs ==>
                      AllGone(emptied.core.dirs, at.inode, ChildNames(names.dirs[at.inode])))
    ensures var at := Resolve(fs.core.Names(), path, fs.core.superblock.rootInode, false, limits).value;
            var (core, d) := DropName(emptied.core, at);
            && (d.Ok? <==> at.name != DOT && at.name != DOTDOT && emptied.core.Names().Find(at.parent, at.name).Some?)
            && (d.Err? ==> core == emptied.core)
            && (d.Ok? ==> NameDropped(emptied.core.dirs, core.dirs, at)
                          && Left(fs, Finished(emptied.(core := core), limits), limits)
                          && TakenAway(fs, Finished(emptied.(core := core), limits), path, d.value, limits))
  {
    var names, after := fs.core.Names(), emptied.core.Names();
    InvPieces(fs.core, limits);
    assert Shrunk(names, after);
    var at := Resolve(names, path, names.root, false, limits).value;
    hide CoreInv, NameDropped, Resolve, DropName, TreeOk, LinksOk, OwnershipOk, StillOk, Table.Valid, Allocation.Valid, Gone, Vacant;
    if at.inode in after.dirs {
      assert at.inode in names.dirs by { ShrunkDirs(names, after, at.inode); }
      AllGoneVacant(names, after, at.inode);
    }
    StillNamed(names, after, path, limits);
    SameRoot(fs, emptied, limits);
    hide Shrunk;
    DropNameEffect(emptied.core, at, limits);
    var (core, d) := DropName(emptied.core, at);
    if d.Ok? {
      var dropped := emptied.(core := core);
      assert Left(emptied, dropped, limits);
      FinishedLeft(dropped, limits);
      LeftTransitive(fs, emptied, dropped, limits);
      LeftTransitive(fs, dropped, Finished(dropped, limits), limits);
    }
  }

  lemma SameRoot(fs: Fs, emptied: Fs, limits: Limits)
    requires Left(fs, emptied, limits)
    ensures emptied.core.superblock.rootInode == fs.core.superblock.rootInode
    ensures CoreInv(emptied.core, limits)
  {
  }

  lemma ShrunkDirs(before: Namespace, after: Namespace, d: u64)
    requires Shrunk(before, after) && d in after.dirs
    ensures d in before.dirs
  {
  }

  ghost predicate AllGone(dirs: Dirs, d: u64, children: seq<text>) {
    forall name :: name in children ==> Gone(dirs, d, name)
  }

  /** Removing the children of a directory one by one: if none fails, none of the names is left. */
  lemma {:induction false} RemoveChildrenEffect(before: Namespace, fs: Fs, path: text, children: seq<text>, limits: Limits)
    requires CoreInv(fs.core, limits) && |path| <= limits.maxPathBytes
    requires TreeOk(before, limits) && Shrunk(before, fs.core.Names())
    requires ResolveCursor(before, path, before.root, false, limits).Ok?
    requires forall name :: name in children ==> ChildName(name)
    requires children != [] ==> before.IsDirectory(ResolveCursor(before, path, before.root, false, limits).value.current)
    ensures var (next, r) := RemoveChildren(fs, path, children, limits);
            && Left(fs, next, limits)
            && (r.Ok? ==> AllGone(next.core.dirs, ResolveCursor(before, path, before.root, false, limits).value.current, children))
    decreases Headroom(path, limits), 0, |children|
  {
    LeftReflexive(fs, limits);
    RemoveChildrenStep(fs, path, children, limits);
    hide CoreInv, TreeOk, Shrunk, ResolveCursor, RemovePath, RemoveChildren, Left, ChildPath, ChildName, Headroom, TakenAway, Namespace.IsDirectory;
    if children != [] {
      var name, rest := children[0], children[1..];
      assert ChildName(name);
      ChildDeeper(path, name, limits);
      RemovePathEffect(fs, ChildPath(path, name), true, limits);
      var (mid, r) := RemovePath(fs, ChildPath(path, name), true, limits);
      if r.Ok? {
        RemoveRest(before, fs, mid, path, name, r.value, limits);
        RemoveChildrenEffect(before, mid, path, rest, limits);
        ChildrenJoin(fs, mid, RemoveChildren(mid, path, rest, limits),
                     ResolveCursor(before, path, before.root, false, limits).value.current, children, limits);
      }
    }
  }

  lemma RemoveChildrenStep(fs: Fs, path: text, children: seq<text>, limits: Limits)
    requires |path| <= limits.maxPathBytes && forall name :: name in children ==> ChildName(name)
    ensures RemoveChildren(fs, path, children, limits) ==
            if children == [] then (fs, Ok(()))
            else
              var (mid, r) := RemovePath(fs, ChildPath(path, children[0]), true, limits);
              if r.Err? then (mid, Err(r.code)) else RemoveChildren(mid, path, children[1..], limits)
  {
    hide RemovePath;
    if children != [] {
      assert ChildName(children[0]);
    }
  }

  lemma ChildrenJoin(fs: Fs, mid: Fs, last: (Fs, Result<()>), d: u64, children: seq<text>, limits: Limits)
    requires CoreInv(mid.core, limits) && children != []
    requires Left(fs, mid, limits) && Left(mid, last.0, limits) && Gone(mid.core.dirs, d, children[0])
    requires last.1.Ok? ==> AllGone(last.0.core.dirs, d, children[1..])
    ensures Left(fs, last.0, limits)
    ensures last.1.Ok? ==> AllGone(last.0.core.dirs, d, children)
  {
    hide CoreInv, Gone, Left;
    LeftTransitive(fs, mid, last.0, limits);
    if last.1.Ok? {
      GoneLater(mid, last.0, d, children[0], limits);
      assert children == [children[0]] + children[1..];
    }
  }

  lemma ChildDeeper(path: text, name: text, limits: Limits)
    requires ChildName(name) && |path| <= limits.maxPathBytes
    ensures name != [] && Headroom(ChildPath(path, name), limits) < Headroom(path, limits)
  {
  }

  lemma RemoveRest(before: Namespace, fs: Fs, mid: Fs, path: text, name: text, id: u64, limits: Limits)
    requires TreeOk(before, limits) && Shrunk(before, fs.core.Names()) && ChildName(name)
    requires ResolveCursor(before, path, before.root, false, limits).Ok?
    requires before.IsDirectory(ResolveCursor(before, path, before.root, false, limits).value.current)
    requires Left(fs, mid, limits)
    requires TakenAway(fs, mid, ChildPath(path, name), id, limits)
    ensures CoreInv(mid.core, limits) && Shrunk(before, mid.core.Names())
    ensures Gone(mid.core.dirs, ResolveCursor(before, path, before.root, false, limits).value.current, name)
  {
    hide CoreInv, TreeOk, ResolveCursor, Shrunk, Gone;
    var child := ChildPath(path, name);
    var names := fs.core.Names();
    assert ResolveCursor(names, child, names.root, false, limits).Ok?;
    ShrunkResolve(before, names, child, false, limits);
    ResolveChild(before, path, name, limits);
    ShrunkTransitive(before, names, mid.core.Names());
  }

  lemma GoneLater(mid: Fs, next: Fs, d: u64, name: text, limits: Limits)
    requires CoreInv(mid.core, limits) && Left(mid, next, limits) && Gone(mid.core.dirs, d, name)
    ensures Gone(next.core.dirs, d, name)
  {
    InvPieces(mid.core, limits);
    hide TreeOk, Gone, CoreInv, Shrunk;
    GoneStays(mid.core.Names(), next.core.Names(), d, name, limits);
  }
}
