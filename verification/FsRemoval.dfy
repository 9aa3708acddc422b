/** When a removal succeeds, and that nothing below is left after it. */
module FsRemoval {
  import opened Base
  import opened Allocators
  import opened Inodes
  import opened InodeTables
  import opened Directories
  import opened Paths
  import opened PathTheorems
  import opened PathMeaning
  import opened PathStability
  import opened PathTraces
  import opened Trees
  import opened TreeOps
  import opened TreeCycles
  import opened FsModel
  import opened FsInvariant
  import opened FsRemove
  import opened FsRemovePath
  import opened FsRemoveFrame
  import opened FsNodes
  import opened FsRuns
  import opened FsRooted

  // ----- The conditions -----

  /** An entry of that very name, neither removed nor a dot, leads to `x`. */
  predicate HasEntry(entries: Entries, i: nat, name: text, x: u64) {
    && i < |entries| && !entries[i].deleted && entries[i].name == name && entries[i].inode == x
    && name != DOT && name != DOTDOT
  }

  ghost predicate HasName(ns: Namespace, d: u64, name: text, x: u64) {
    d in ns.dirs && exists i: nat :: HasEntry(ns.dirs[d], i, name, x)
  }

  /** Names as they are stored, the first in directory `d`, each other in the directory the one before it
      leads to. */
  ghost predicate Spelled(ns: Namespace, d: u64, below: Components)
    decreases |below|
  {
    below == [] || exists x: u64 :: HasName(ns, d, below[0], x) && Spelled(ns, x, below[1..])
  }

  function PathBelow(path: text, below: Components): text
    decreases |below|
  {
    if below == [] then path else PathBelow(ChildPath(path, below[0]), below[1..])
  }

  /** Every path below a directory that was reached by `path` is within the limits for paths. */
  ghost predicate EveryPathFits(ns: Namespace, path: text, top: u64, limits: Limits) {
    forall below: Components :: Spelled(ns, top, below) ==> Split(PathBelow(path, below), limits).Ok?
  }

  /** All entries after the one the name finds are removed ones. */
  predicate IsLast(entries: Entries, name: text) {
    exists i :: 0 <= i < |entries| && entries[i].Named(NormalizeName(name)) && AllRemoved(entries, i + 1)
  }

  predicate AllRemoved(entries: Entries, from: nat) {
    forall j :: from <= j < |entries| ==> entries[j].deleted
  }

  /** Of the directories to be removed the path passes through none but by the name that comes last there:
      the entries go in their order, and each by a path of its own that starts like this one. */
  ghost predicate LastOnly(ns: Namespace, path: text, top: u64, limits: Limits) {
    && Split(path, limits).Ok?
    && forall s :: s in PathTrace(ns, path, limits) && Below(ns.dirs, top, s.directory) && s.name != DOTDOT ==>
         s.directory in ns.dirs && IsLast(ns.dirs[s.directory], s.name)
  }

  ghost predicate Clears(ns: Namespace, path: text, top: u64, limits: Limits) {
    EveryPathFits(ns, path, top, limits) && LastOnly(ns, path, top, limits)
  }

  /** The path resolves, its last link left alone, to something other than the root, and the last step of
      it was a name. */
  ghost predicate Named(ns: Namespace, path: text, limits: Limits) {
    var at := Resolve(ns, path, ns.root, false, limits);
    at.Ok? && at.value.inode != ns.root && Lookup(ns, at.value.parent, at.value.name) == Some(at.value.inode)
  }

  ghost predicate Removable(ns: Namespace, path: text, limits: Limits) {
    Named(ns, path, limits) && Clears(ns, path, Resolve(ns, path, ns.root, false, limits).value.inode, limits)
  }

  // ----- Nothing below is left -----

  lemma {:induction false} NoneLeftIn(before: Namespace, after: Namespace, top: u64, d: u64, n: nat, limits: Limits)
    requires Shrunk(before, after) && TreeOk(after, limits) && top !in after.dirs && BelowIn(before.dirs, top, d, n)
    ensures d !in after.dirs
    decreases n
  {
    if d in after.dirs {
      assert Thinned(before.dirs[d], after.dirs[d]);
      TreeParent(after, limits, d);
      hide TreeOk, Shrunk, Thinned;
      NoneLeftIn(before, after, top, Up(before.dirs, d), n - 1, limits);
    }
  }

  /** With its table everything below a directory is gone. */
  lemma NoneLeft(before: Namespace, after: Namespace, top: u64, limits: Limits)
    requires Shrunk(before, after) && TreeOk(after, limits) && top !in after.dirs
    ensures forall d :: Below(before.dirs, top, d) ==> d !in after.dirs
  {
    hide Shrunk, TreeOk, BelowIn;
    forall d | Below(before.dirs, top, d) ensures d !in after.dirs {
      var n: nat :| BelowIn(before.dirs, top, d, n);
      NoneLeftIn(before, after, top, d, n, limits);
    }
  }

  /** The table of what was removed is gone. */
  lemma TopGone(fs: Fs, path: text, recursive: bool, limits: Limits)
    requires CoreInv(fs.core, limits) && RemovePath(fs, path, recursive, limits).1.Ok?
    ensures var names := fs.core.Names();
            && Resolve(names, path, names.root, false, limits).Ok?
            && Resolve(names, path, names.root, false, limits).value.inode !in RemovePath(fs, path, recursive, limits).0.core.dirs
  {
    hide CoreInv, EntriesOk, TreeOk, Gone, Resolve, ResolveCursor, Left, DropName, RemoveChildren, ChildNames, LinksOk, OwnershipOk, StillOk, Table.Valid, Allocation.Valid, TakenAway, Finished, FindIndex, Bury;
    var names := fs.core.Names();
    var at := Resolve(names, path, names.root, false, limits).value;
    var children := if names.IsDirectory(at.inode) && at.inode in names.dirs then ChildNames(names.dirs[at.inode]) else [];
    InvPieces(fs.core, limits);
    DirectoryIffTable(names, at.inode, limits);
    PathFits(names, path, limits);
    ShrunkReflexive(names);
    ChildrenPlain(names, at.inode, limits);
    RemoveChildrenEffect(names, fs, path, children, limits);
    var emptied := RemoveChildren(fs, path, children, limits).0;
    RemoveEmptied(fs, emptied, path, limits);
    FinishedDirs(emptied.(core := DropName(emptied.core, at).0), limits);
  }

  /** After a removal, recursive or not, no directory below the removed one is left, and neither is any
      inode without another name: what is left has a name in a directory that was not below, and it is not
      the name removed. */
  lemma RemovedAll(fs: Fs, path: text, recursive: bool, limits: Limits)
    requires CoreInv(fs.core, limits) && RemovePath(fs, path, recursive, limits).1.Ok?
    ensures var names := fs.core.Names();
            && Resolve(names, path, names.root, false, limits).Ok?
            && var next := RemovePath(fs, path, recursive, limits).0.core.Names();
               var at := Resolve(names, path, names.root, false, limits).value;
               && (forall d :: Below(names.dirs, at.inode, d) ==> d !in next.dirs)
               && (forall id :: id in next.inodes && id != next.root ==> Elsewhere(names, next, at, id))
  {
    hide CoreInv, TreeOk, LinksOk, OwnershipOk, StillOk, EntriesOk, Table.Valid, Allocation.Valid, Resolve, RemovePath, TakenAway, Gone, Shrunk, Below, Elsewhere;
    var names := fs.core.Names();
    var next := RemovePath(fs, path, recursive, limits).0;
    RemovePathEffect(fs, path, recursive, limits);
    TopGone(fs, path, recursive, limits);
    InvPieces(next.core, limits);
    InvPieces(fs.core, limits);
    var at := Resolve(names, path, names.root, false, limits).value;
    NoneLeft(names, next.core.Names(), at.inode, limits);
    forall id | id in next.core.table.inodes && id != next.core.superblock.rootInode
      ensures Elsewhere(names, next.core.Names(), at, id)
    {
      NameLeft(fs, next, path, at, RemovePath(fs, path, recursive, limits).1.value, id, limits);
    }
  }

  /** A name that was there before, and is there still, in a directory not below; it is not the removed one. */
  ghost predicate Elsewhere(before: Namespace, after: Namespace, at: ResolvedPath, id: u64) {
    exists p: u64, i: nat :: LeftName(before, after, at, p, i, id)
  }

  ghost predicate LeftName(before: Namespace, after: Namespace, at: ResolvedPath, p: u64, i: nat, id: u64) {
    && p in before.dirs && p in after.dirs && i < |before.dirs[p]| && i < |after.dirs[p]|
    && HasEntry(before.dirs[p], i, before.dirs[p][i].name, id) && after.dirs[p][i] == before.dirs[p][i]
    && !Below(before.dirs, at.inode, p)
    && !(p == at.parent && NormalizeName(before.dirs[p][i].name) == NormalizeName(at.name))
  }

  lemma NameLeft(fs: Fs, next: Fs, path: text, at: ResolvedPath, taken: u64, id: u64, limits: Limits)
    requires var names, after := fs.core.Names(), next.core.Names();
             && TreeOk(after, limits) && LinksOk(after) && TreeOk(names, limits) && Shrunk(names, after)
             && id in after.inodes && id != after.root
             && Resolve(names, path, names.root, false, limits) == Ok(at)
             && TakenAway(fs, next, path, taken, limits)
             && forall d :: Below(names.dirs, at.inode, d) ==> d !in after.dirs
    ensures Elsewhere(fs.core.Names(), next.core.Names(), at, id)
  {
    var names, after := fs.core.Names(), next.core.Names();
    var p, i := SomeName(after, id, limits);
    assert TableOk(p, after.dirs[p], limits);
    hide TreeOk, LinksOk, Resolve, Below, FindIndex;
    assert Thinned(names.dirs[p], after.dirs[p]);
    assert HasEntry(names.dirs[p], i, names.dirs[p][i].name, id);
    if p == at.parent && NormalizeName(names.dirs[p][i].name) == NormalizeName(at.name) {
      assert false;
    }
    assert LeftName(names, after, at, p, i, id);
  }

  // ----- The names of a directory, in their order -----

  lemma {:induction false} FirstChild(entries: Entries) returns (i: nat)
    requires ChildNames(entries) != []
    ensures i < |entries| && HasEntry(entries, i, ChildNames(entries)[0], entries[i].inode)
    ensures forall j :: 0 <= j < i ==> entries[j].deleted || entries[j].IsDot()
    ensures ChildNames(Bury(entries, i)) == ChildNames(entries)[1..]
    ensures ChildNames(entries[i + 1..]) == ChildNames(entries)[1..]
    decreases |entries|
  {
    if entries[0].deleted || entries[0].IsDot() {
      var k := FirstChild(entries[1..]);
      i := k + 1;
      assert Bury(entries, i)[1..] == Bury(entries[1..], k) && Bury(entries, i)[0] == entries[0];
      assert entries[1..][k + 1..] == entries[i + 1..];
    } else {
      i := 0;
      assert Bury(entries, 0)[1..] == entries[1..];
    }
  }

  lemma {:induction false} NoChildNames(entries: Entries)
    ensures ChildNames(entries) == [] <==> Vacant(entries)
    decreases |entries|
  {
    if entries != [] {
      NoChildNames(entries[1..]);
      assert entries == [entries[0]] + entries[1..];
      if Vacant(entries[1..]) && (entries[0].deleted || entries[0].IsDot()) {
        assert forall i :: 0 < i < |entries| ==> entries[i] == entries[1..][i - 1];
      }
      if Vacant(entries) {
        assert forall i :: 0 <= i < |entries[1..]| ==> entries[1..][i] == entries[i + 1];
      }
    }
  }

  /** The first child of a table in order. */
  ghost predicate FirstIs(ns: Namespace, top: u64, i: nat, name: text, c: u64) {
    && top in ns.dirs && i >= 2 && HasEntry(ns.dirs[top], i, name, c) && Plain(name)
    && (forall j :: 0 <= j < i ==> ns.dirs[top][j].deleted || ns.dirs[top][j].IsDot())
    && NameOk(ns, top, ns.dirs[top][i]) && FindIndex(ns.dirs[top], NormalizeName(name)) == Some(i)
  }

  lemma FirstFound(ns: Namespace, top: u64, limits: Limits) returns (i: nat)
    requires TreeOk(ns, limits) && top in ns.dirs && ChildNames(ns.dirs[top]) != []
    ensures i < |ns.dirs[top]| && FirstIs(ns, top, i, ChildNames(ns.dirs[top])[0], ns.dirs[top][i].inode)
    ensures ChildNames(Bury(ns.dirs[top], i)) == ChildNames(ns.dirs[top])[1..]
    ensures ChildNames(ns.dirs[top])[1..] == [] <==> AllRemoved(ns.dirs[top], i + 1)
  {
    var entries := ns.dirs[top];
    i := FirstChild(entries);
    assert TableOk(top, entries, limits);
    assert i >= 2;
    assert NameOk(ns, top, entries[i]);
    assert entries[i].Validate(limits).Ok?;
    FindUnique(entries, i);
    NoChildNames(entries[i + 1..]);
    RestVacant(entries, i + 1);
  }

  lemma RestVacant(entries: Entries, from: nat)
    requires from <= |entries| && forall i :: from <= i < |entries| ==> !entries[i].IsDot()
    ensures Vacant(entries[from..]) <==> AllRemoved(entries, from)
  {
    var rest := entries[from..];
    assert forall i :: 0 <= i < |rest| ==> rest[i] == entries[from + i];
    assert forall i :: from <= i < |entries| ==> entries[i] == rest[i - from];
  }

  /** A name other than the dots that finds something finds an entry among the children. */
  lemma FoundAt(ns: Namespace, top: u64, name: text, limits: Limits) returns (k: nat)
    requires TreeOk(ns, limits) && top in ns.dirs && ns.Find(top, name).Some? && name != DOT && name != DOTDOT
    ensures 2 <= k < |ns.dirs[top]| && ns.dirs[top][k].Named(NormalizeName(name)) && !ns.dirs[top][k].IsDot()
    ensures ns.Find(top, name).value == ns.dirs[top][k] && UniqueNames(ns.dirs[top])
  {
    assert TableOk(top, ns.dirs[top], limits);
    NameFound(ns.dirs, top, name, limits);
    k := FindIndex(ns.dirs[top], NormalizeName(name)).value;
  }

  /** With names unique, the entry found is the last one exactly if nothing active follows it. */
  lemma LastIs(entries: Entries, k: nat, name: text)
    requires UniqueNames(entries) && k < |entries| && entries[k].Named(NormalizeName(name))
    ensures IsLast(entries, name) <==> AllRemoved(entries, k + 1)
  {
    if IsLast(entries, name) {
      var i :| 0 <= i < |entries| && entries[i].Named(NormalizeName(name)) && AllRemoved(entries, i + 1);
      assert i == k;
    }
  }

  // ----- The trace of a path and of a child's path -----

  /** The path resolves to directory `top`, which is not the root. */
  ghost predicate LeadsTo(ns: Namespace, path: text, top: u64, limits: Limits) {
    && TreeOk(ns, limits) && LinksOk(ns) && top in ns.dirs && top != ns.root
    && ResolveCursor(ns, path, ns.root, false, limits).Ok?
    && ResolveCursor(ns, path, ns.root, false, limits).value.current == top
  }

  lemma Hangs(ns: Namespace, path: text, top: u64, limits: Limits)
    requires LeadsTo(ns, path, top, limits)
    ensures Below(ns.dirs, ns.root, top) && |ns.dirs[top]| >= 2
    ensures Split(path, limits).Ok? && path != [] && |path| <= limits.maxPathBytes
  {
    TreeParentsAgree(ns, limits);
    TreeParent(ns, limits, top);
    NotEmpty(path, limits);
    hide TreeOk, ResolveCursor, ParentsAgree, PathTheorems.Walk, Below;
    CanonicalLeadsThere(ns, path, false, limits);
    WalkBelow(ns, ResolveCursor(ns, path, ns.root, false, limits).value.canonical, top, limits);
    ResolvedSplits(ns, path, limits);
  }

  lemma ResolvedSplits(ns: Namespace, path: text, limits: Limits)
    requires ResolveCursor(ns, path, ns.root, false, limits).Ok?
    ensures Split(path, limits).Ok? && |path| <= limits.maxPathBytes
  {
    hide ResolveFrom;
  }

  /** What a path's lookups find, they find. */
  lemma PathIntact(ns: Namespace, path: text, top: u64, limits: Limits)
    requires LeadsTo(ns, path, top, limits)
    ensures Split(path, limits).Ok? && Intact(ns, PathTrace(ns, path, limits))
  {
    hide TreeOk, ResolveCursor, PathTrace, Split;
    ShrunkReflexive(ns);
    PathTraceIntact(ns, ns, path, limits);
  }

  lemma ChildStart(ns: Namespace, path: text, name: text, limits: Limits)
    requires Split(path, limits).Ok? && Plain(name) && Split(ChildPath(path, name), limits).Ok?
    ensures Start(ns, ChildPath(path, name), ns.root, Split(ChildPath(path, name), limits).value) ==
            Extend(Start(ns, path, ns.root, Split(path, limits).value), name)
  {
    hide Split;
    SplitChild(path, name, limits);
    NotEmpty(path, limits);
    assert ChildPath(path, name)[0] == path[0];
  }

  /** The path of an entry resolves, if it is within the limits, to what the entry leads to. */
  lemma ChildResolves(ns: Namespace, path: text, top: u64, name: text, limits: Limits)
    requires LeadsTo(ns, path, top, limits) && NeverDecides(limits) && Plain(name) && name != DOT && name != DOTDOT
    requires Split(ChildPath(path, name), limits).Ok?
    requires ns.Find(top, name).Some? && ns.Find(top, name).value.inode in ns.inodes
    ensures var r := ResolveCursor(ns, ChildPath(path, name), ns.root, false, limits);
            r.Ok? && r.value.current == ns.Find(top, name).value.inode
            && Finish(r.value).parent == top && Finish(r.value).name == name
  {
    hide TreeOk, LinksOk, Split, NeverDecides, Directories.Find, ResolveFrom, Render;
    Hangs(ns, path, top, limits);
    ChildStart(ns, path, name, limits);
    var start := Start(ns, path, ns.root, Split(path, limits).value);
    var child := ChildPath(path, name);
    TreeRoot(ns, limits);
    if limits.maxSymlinkDepth == TWO32 - 1 {
      assert |Split(child, limits).value| == |Extend(start, name).pending| > 0;
      NoComponents(child, limits);
      assert false;
    } else {
      ExpansionLimitUnreachable(ns, path, ns.root, false, limits);
      ExpansionLimitUnreachable(ns, child, ns.root, false, limits);
      ResolveFromExtended(ns, start, name, limits, TWO32);
      LastStep(ns, ResolveFrom(ns, start, false, limits, TWO32).value, name, limits);
    }
  }

  lemma LastStep(ns: Namespace, c: Cursor, name: text, limits: Limits)
    requires Bounded(c, limits) && limits.maxSymlinkDepth < TWO32 - 1
    requires c.pending == [] && name != [] && name != DOT && name != DOTDOT && ns.IsDirectory(c.current)
    requires ns.Find(c.current, name).Some? && ns.Find(c.current, name).value.inode in ns.inodes
    ensures var r := ResolveFrom(ns, Extend(c, name), false, limits, TWO32);
            r.Ok? && r.value.current == ns.Find(c.current, name).value.inode
            && r.value.parent == c.current && r.value.canonical == c.canonical + [name]
  {
    hide Directories.Find;
    var longer := Extend(c, name);
    assert longer.pending[0] == name && longer.pending[1..] == [];
    var next := Advance(ns, longer, false, limits, TWO32);
    assert next.Ok? && next.value.pending == [];
  }

  /** Its lookups are those of the directory's path, and the one of its name. */
  lemma ChildTrace(ns: Namespace, path: text, top: u64, name: text, limits: Limits)
    requires LeadsTo(ns, path, top, limits) && Plain(name) && name != DOT && name != DOTDOT
    requires ResolveCursor(ns, ChildPath(path, name), ns.root, false, limits).Ok?
    ensures Split(path, limits).Ok? && Split(ChildPath(path, name), limits).Ok?
    ensures PathTrace(ns, ChildPath(path, name), limits) == PathTrace(ns, path, limits) + [Lookedup(top, name)]
  {
    hide TreeOk, LinksOk, Split, ResolveFrom, Trace;
    TreeRoot(ns, limits);
    ChildStart(ns, path, name, limits);
    TraceExtended(ns, Start(ns, path, ns.root, Split(path, limits).value), name, limits, ExpansionLimit(limits));
  }

  // ----- The first child -----

  /** A child of a directory that hangs from the root. */
  lemma ChildBelow(ns: Namespace, path: text, top: u64, i: nat, name: text, c: u64, limits: Limits)
    requires LeadsTo(ns, path, top, limits) && FirstIs(ns, top, i, name, c)
    ensures c != ns.root && c in ns.inodes && !Below(ns.dirs, c, top)
    ensures c in ns.dirs ==> |ns.dirs[c]| >= 2 && Up(ns.dirs, c) == top && Below(ns.dirs, ns.root, c)
    ensures forall d :: d in ns.dirs && Below(ns.dirs, c, d) ==> Below(ns.dirs, top, d) && d != top && c in ns.dirs
  {
    Hangs(ns, path, top, limits);
    hide LeadsTo, TreeOk, BelowIn;
    assert NameOk(ns, top, ns.dirs[top][i]);
    if c in ns.dirs {
      BelowUp(ns.dirs, ns.root, c);
      assert TreeOk(ns, limits) by { LeadsTree(ns, path, top, limits); }
      NotAbove(ns, c, limits);
    }
    forall d | d in ns.dirs && Below(ns.dirs, c, d) ensures Below(ns.dirs, top, d) && d != top && c in ns.dirs {
      var n: nat :| BelowIn(ns.dirs, c, d, n);
      LeadsTree(ns, path, top, limits);
      if c in ns.dirs {
        BelowChildIn(ns.dirs, top, c, d, n);
      } else {
        NotBelowFile(ns, c, d, n, limits);
      }
    }
    LeadsTree(ns, path, top, limits);
  }

  lemma LeadsTree(ns: Namespace, path: text, top: u64, limits: Limits)
    requires LeadsTo(ns, path, top, limits)
    ensures TreeOk(ns, limits) && LinksOk(ns) && top in ns.dirs && ns.IsDirectory(top)
  {
    TreeRoot(ns, limits);
  }

  /** A child's path is one of those below. */
  lemma SpelledNext(ns: Namespace, d: u64, name: text, x: u64, rest: Components)
    requires HasName(ns, d, name, x) && Spelled(ns, x, rest)
    ensures Spelled(ns, d, [name] + rest)
  {
    hide HasName;
    assert ([name] + rest)[1..] == rest;
  }

  lemma ChildFits(ns: Namespace, path: text, top: u64, name: text, c: u64, limits: Limits)
    requires EveryPathFits(ns, path, top, limits) && HasName(ns, top, name, c)
    ensures Split(ChildPath(path, name), limits).Ok? && EveryPathFits(ns, ChildPath(path, name), c, limits)
  {
    hide HasName, Split, ChildPath;
    forall rest: Components | Spelled(ns, c, rest) ensures Split(PathBelow(ChildPath(path, name), rest), limits).Ok? {
      SpelledNext(ns, top, name, c, rest);
      assert ([name] + rest)[1..] == rest;
    }
    assert Spelled(ns, c, []);
  }

  /** What clears a directory clears the directory's first child. */
  lemma ClearsChild(ns: Namespace, path: text, top: u64, i: nat, name: text, c: u64, limits: Limits)
    requires LeadsTo(ns, path, top, limits) && NeverDecides(limits) && FirstIs(ns, top, i, name, c)
    requires Clears(ns, path, top, limits)
    ensures Split(ChildPath(path, name), limits).Ok? && Clears(ns, ChildPath(path, name), c, limits)
  {
    hide LeadsTo, FirstIs, NeverDecides, EveryPathFits, Below, Split, PathTrace, IsLast;
    FirstHas(ns, top, i, name, c);
    ChildFits(ns, path, top, name, c, limits);
    ChildPathResolves(ns, path, top, i, name, c, limits);
    ChildBelow(ns, path, top, i, name, c, limits);
    ChildTrace(ns, path, top, name, limits);
    PathIntact(ns, path, top, limits);
    var child := ChildPath(path, name);
    forall s | s in PathTrace(ns, child, limits) && Below(ns.dirs, c, s.directory) && s.name != DOTDOT
      ensures s.directory in ns.dirs && IsLast(ns.dirs[s.directory], s.name)
    {
      assert s != Lookedup(top, name);
      assert s in PathTrace(ns, path, limits);
      FoundHere(ns, s);
    }
  }

  lemma FoundHere(ns: Namespace, s: Lookedup)
    ensures ns.Find(s.directory, s.name).Some? ==> s.directory in ns.dirs
  {
  }

  lemma FirstHas(ns: Namespace, top: u64, i: nat, name: text, c: u64)
    requires FirstIs(ns, top, i, name, c)
    ensures HasName(ns, top, name, c) && Plain(name) && name != DOT && name != DOTDOT && i < |ns.dirs[top]|
    ensures top in ns.dirs && ns.Find(top, name).Some? && ns.Find(top, name).value.inode == c && c in ns.inodes && c != ns.root
  {
    hide FindIndex;
  }

  lemma ChildPathResolves(ns: Namespace, path: text, top: u64, i: nat, name: text, c: u64, limits: Limits)
    requires LeadsTo(ns, path, top, limits) && NeverDecides(limits) && FirstIs(ns, top, i, name, c)
    requires Split(ChildPath(path, name), limits).Ok?
    ensures var r := ResolveCursor(ns, ChildPath(path, name), ns.root, false, limits);
            r.Ok? && r.value.current == c && Finish(r.value).parent == top && Finish(r.value).name == name
  {
    hide LeadsTo, FirstIs, NeverDecides, Split, ResolveCursor;
    FirstHas(ns, top, i, name, c);
    ChildResolves(ns, path, top, name, limits);
  }

  // ----- The only child -----

  /** The entry a lookup in the directory finds: where only one is left, that one. */
  lemma {:induction false} ChildAbove(ns: Namespace, top: u64, d: u64, n: nat, limits: Limits) returns (x: u64, k: nat)
    requires TreeOk(ns, limits) && LinksOk(ns) && d in ns.dirs && d != top && BelowIn(ns.dirs, top, d, n)
    requires top != ns.root && Below(ns.dirs, ns.root, top)
    ensures x in ns.dirs && Below(ns.dirs, x, d) && NameAt(ns, top, k, x)
    decreases n
  {
    hide TreeOk, LinksOk, Below, NameAt;
    TreeRoot(ns, limits);
    var p := Up(ns.dirs, d);
    if p == top {
      if d == ns.root {
        assert false;
      }
      var q;
      q, k := SomeName(ns, d, limits);
      x := d;
      BelowTop(ns.dirs, d);
    } else {
      TreeParent(ns, limits, d);
      x, k := ChildAbove(ns, top, p, n - 1, limits);
      BelowUp(ns.dirs, x, d);
    }
  }

  lemma OnlyChild(ns: Namespace, top: u64, i: nat, name: text, c: u64, k: nat, limits: Limits)
    requires FirstIs(ns, top, i, name, c) && AllRemoved(ns.dirs[top], i + 1)
    requires k < |ns.dirs[top]| && !ns.dirs[top][k].deleted && !ns.dirs[top][k].IsDot()
    ensures k == i
  {
  }

  /** With one child left, clearing the directory is clearing that child. */
  lemma ClearsOnly(ns: Namespace, path: text, top: u64, i: nat, name: text, c: u64, limits: Limits)
    requires LeadsTo(ns, path, top, limits) && NeverDecides(limits) && FirstIs(ns, top, i, name, c)
    requires AllRemoved(ns.dirs[top], i + 1)
    requires Split(ChildPath(path, name), limits).Ok? && Clears(ns, ChildPath(path, name), c, limits)
    ensures Clears(ns, path, top, limits)
  {
    hide LeadsTo, FirstIs, NeverDecides, Below, Split, PathTrace, IsLast, AllRemoved, Trace;
    Hangs(ns, path, top, limits);
    FirstHas(ns, top, i, name, c);
    forall below: Components | Spelled(ns, top, below) ensures Split(PathBelow(path, below), limits).Ok? {
      if below != [] {
        OnlySpelled(ns, top, i, name, c, below, limits);
      }
    }
    ChildPathResolves(ns, path, top, i, name, c, limits);
    ChildTrace(ns, path, top, name, limits);
    PathIntact(ns, path, top, limits);
    forall s | s in PathTrace(ns, path, limits) && Below(ns.dirs, top, s.directory) && s.name != DOTDOT
      ensures s.directory in ns.dirs && IsLast(ns.dirs[s.directory], s.name)
    {
      assert s in PathTrace(ns, ChildPath(path, name), limits);
      FoundHere(ns, s);
      TraceNames(ns, path, s, limits);
      OnlyLookups(ns, path, top, i, name, c, s, limits);
    }
  }

  /** A component that is looked up is not ".". */
  lemma TraceNames(ns: Namespace, path: text, s: Lookedup, limits: Limits)
    requires Split(path, limits).Ok? && s in PathTrace(ns, path, limits)
    ensures s.name != [] && s.name != DOT
  {
    hide Split;
    TraceNamesFrom(ns, Start(ns, path, ns.root, Split(path, limits).value), false, limits, ExpansionLimit(limits), s);
  }

  lemma {:induction false} TraceNamesFrom(ns: Namespace, c: Cursor, follow: bool, limits: Limits, budget: nat, s: Lookedup)
    requires Bounded(c, limits) && (limits.maxSymlinkDepth == TWO32 - 1 ==> budget == 0)
    requires s in Trace(ns, c, follow, limits, budget)
    ensures s.name != [] && s.name != DOT
    decreases limits.maxSymlinkDepth - c.followed, |c.pending|
  {
    hide Advance, Bounded;
    AdvanceProgress(ns, c, follow, limits, budget);
    if s !in Asked(c) {
      TraceNamesFrom(ns, Advance(ns, c, follow, limits, budget).value, follow, limits, budget, s);
    }
  }

  lemma OnlySpelled(ns: Namespace, top: u64, i: nat, name: text, c: u64, below: Components, limits: Limits)
    requires FirstIs(ns, top, i, name, c) && AllRemoved(ns.dirs[top], i + 1) && below != [] && Spelled(ns, top, below)
    ensures below[0] == name && Spelled(ns, c, below[1..])
  {
    hide FirstIs, AllRemoved;
    var x: u64 :| HasName(ns, top, below[0], x) && Spelled(ns, x, below[1..]);
    var k: nat :| HasEntry(ns.dirs[top], k, below[0], x);
    OnlyChild(ns, top, i, name, c, k, limits);
    FirstEntry(ns, top, i, name, c);
  }

  lemma FirstEntry(ns: Namespace, top: u64, i: nat, name: text, c: u64)
    requires FirstIs(ns, top, i, name, c)
    ensures top in ns.dirs && HasEntry(ns.dirs[top], i, name, c)
  {
  }

  lemma OnlyLookups(ns: Namespace, path: text, top: u64, i: nat, name: text, c: u64, s: Lookedup, limits: Limits)
    requires LeadsTo(ns, path, top, limits) && FirstIs(ns, top, i, name, c) && AllRemoved(ns.dirs[top], i + 1)
    requires s.directory in ns.dirs && Below(ns.dirs, top, s.directory) && s.name != DOTDOT && s.name != DOT
    requires ns.Find(s.directory, s.name).Some?
    ensures s.directory == top ==> IsLast(ns.dirs[top], s.name)
    ensures s.directory != top ==> Below(ns.dirs, c, s.directory)
  {
    Hangs(ns, path, top, limits);
    LeadsTree(ns, path, top, limits);
    hide LeadsTo, FirstIs, TreeOk, LinksOk, AllRemoved, IsLast, Directories.Find;
    if s.directory == top {
      var k := FoundAt(ns, top, s.name, limits);
      OnlyChild(ns, top, i, name, c, k, limits);
      LastIs(ns.dirs[top], k, s.name);
    } else {
      hide Below, BelowIn;
      assert Below(ns.dirs, top, s.directory);
      var n := BelowSome(ns.dirs, top, s.directory);
      var x, k := ChildAbove(ns, top, s.directory, n, limits);
      NamedChild(ns, top, k, x, limits);
      OnlyChild(ns, top, i, name, c, k, limits);
      FirstEntry(ns, top, i, name, c);
    }
  }

  lemma BelowSome(dirs: Dirs, top: u64, d: u64) returns (n: nat)
    requires Below(dirs, top, d)
    ensures BelowIn(dirs, top, d, n)
  {
    n :| BelowIn(dirs, top, d, n);
  }

  lemma NamedChild(ns: Namespace, top: u64, k: nat, x: u64, limits: Limits)
    requires TreeOk(ns, limits) && NameAt(ns, top, k, x)
    ensures top in ns.dirs && 2 <= k < |ns.dirs[top]|
    ensures !ns.dirs[top][k].deleted && !ns.dirs[top][k].IsDot() && ns.dirs[top][k].inode == x
  {
    assert TableOk(top, ns.dirs[top], limits);
  }

  /** A file, and a directory without names, is cleared by any path. */
  lemma ClearsVacant(ns: Namespace, path: text, top: u64, limits: Limits)
    requires TreeOk(ns, limits) && LinksOk(ns) && top != ns.root
    requires ResolveCursor(ns, path, ns.root, false, limits).Ok?
    requires ResolveCursor(ns, path, ns.root, false, limits).value.current == top
    requires top in ns.dirs ==> Vacant(ns.dirs[top])
    ensures Clears(ns, path, top, limits)
  {
    hide TreeOk, LinksOk, ResolveCursor, Below, Split, PathTrace, IsLast, Vacant;
    ResolvedSplits(ns, path, limits);
    forall below: Components | Spelled(ns, top, below) ensures Split(PathBelow(path, below), limits).Ok? {
      VacantSpelled(ns, top, below);
    }
    ResolvedIntact(ns, path, limits);
    forall s | s in PathTrace(ns, path, limits) && s.name != DOTDOT ensures !Below(ns.dirs, top, s.directory) {
      FoundHere(ns, s);
      TraceNames(ns, path, s, limits);
      VacantLookups(ns, path, top, s, limits);
    }
  }

  lemma VacantSpelled(ns: Namespace, top: u64, below: Components)
    requires top in ns.dirs ==> Vacant(ns.dirs[top])
    requires Spelled(ns, top, below)
    ensures below == []
  {
  }

  lemma ResolvedIntact(ns: Namespace, path: text, limits: Limits)
    requires TreeOk(ns, limits) && ResolveCursor(ns, path, ns.root, false, limits).Ok?
    ensures Split(path, limits).Ok? && Intact(ns, PathTrace(ns, path, limits))
  {
    hide TreeOk, ResolveCursor, PathTrace, Split;
    ShrunkReflexive(ns);
    PathTraceIntact(ns, ns, path, limits);
  }

  lemma VacantLookups(ns: Namespace, path: text, top: u64, s: Lookedup, limits: Limits)
    requires TreeOk(ns, limits) && LinksOk(ns) && top != ns.root && (top in ns.dirs ==> Vacant(ns.dirs[top]))
    requires ResolveCursor(ns, path, ns.root, false, limits).Ok?
    requires ResolveCursor(ns, path, ns.root, false, limits).value.current == top
    requires s.directory in ns.dirs && ns.Find(s.directory, s.name).Some? && s.name != DOT && s.name != DOTDOT
    ensures !Below(ns.dirs, top, s.directory)
  {
    hide TreeOk, LinksOk, ResolveCursor, BelowIn, Directories.Find;
    if Below(ns.dirs, top, s.directory) {
      var n := BelowSome(ns.dirs, top, s.directory);
      if top !in ns.dirs {
        NotBelowFile(ns, top, s.directory, n, limits);
      } else if s.directory == top {
        var k := FoundAt(ns, top, s.name, limits);
      } else {
        Hangs(ns, path, top, limits);
        var x, k := ChildAbove(ns, top, s.directory, n, limits);
        NamedChild(ns, top, k, x, limits);
      }
    }
  }

  // ----- After the first child -----

  /** The first child and all below it are gone, and nothing else. */
  ghost predicate ChildGone(ns: Namespace, after: Namespace, top: u64, i: nat, c: u64, limits: Limits) {
    && Shrunk(ns, after) && TreeOk(after, limits) && LinksOk(after)
    && top in ns.dirs && i < |ns.dirs[top]| && top in after.dirs && after.dirs[top] == Bury(ns.dirs[top], i)
    && (forall d :: d in ns.dirs && d != top && !Below(ns.dirs, c, d) ==> d in after.dirs && after.dirs[d] == ns.dirs[d])
    && (forall d :: Below(ns.dirs, c, d) ==> d !in after.dirs)
  }

  lemma GoneParts(ns: Namespace, after: Namespace, top: u64, i: nat, c: u64, limits: Limits)
    requires ChildGone(ns, after, top, i, c, limits)
    ensures Shrunk(ns, after) && TreeOk(after, limits) && LinksOk(after) && after.root == ns.root
    ensures top in ns.dirs && i < |ns.dirs[top]| && top in after.dirs && after.dirs[top] == Bury(ns.dirs[top], i)
  {
  }

  lemma TableKept(ns: Namespace, after: Namespace, top: u64, i: nat, c: u64, d: u64, limits: Limits)
    requires ChildGone(ns, after, top, i, c, limits) && d in ns.dirs && d != top && !Below(ns.dirs, c, d)
    ensures d in after.dirs && after.dirs[d] == ns.dirs[d]
  {
    hide Below, Shrunk, TreeOk, LinksOk;
  }

  lemma TableGone(ns: Namespace, after: Namespace, top: u64, i: nat, c: u64, d: u64, limits: Limits)
    requires ChildGone(ns, after, top, i, c, limits) && d in after.dirs
    ensures d in ns.dirs && !Below(ns.dirs, c, d)
    ensures d != top ==> after.dirs[d] == ns.dirs[d]
  {
    hide Below, TreeOk, LinksOk;
  }

  /** A path that resolves after it resolved before, to the same place. */
  lemma AfterLeads(ns: Namespace, after: Namespace, path: text, top: u64, i: nat, c: u64, limits: Limits)
    requires LeadsTo(ns, path, top, limits) && ChildGone(ns, after, top, i, c, limits)
    ensures Split(path, limits).Ok?
    ensures ResolveCursor(after, path, after.root, false, limits).Ok? <==> Intact(after, PathTrace(ns, path, limits))
    ensures ResolveCursor(after, path, after.root, false, limits).Ok? ==>
              LeadsTo(after, path, top, limits) && PathTrace(after, path, limits) == PathTrace(ns, path, limits)
  {
    GoneParts(ns, after, top, i, c, limits);
    hide TreeOk, LinksOk, ResolveCursor, PathTrace, Split, ChildGone, Shrunk, Intact;
    PathTraceIntact(ns, after, path, limits);
  }

  /** If the path of another child still resolves, so does the path of the directory. */
  lemma ChildStill(ns: Namespace, after: Namespace, path: text, top: u64, i: nat, c: u64, name: text, limits: Limits)
    requires LeadsTo(ns, path, top, limits) && ChildGone(ns, after, top, i, c, limits)
    requires Plain(name) && name != DOT && name != DOTDOT
    requires ResolveCursor(after, ChildPath(path, name), after.root, false, limits).Ok?
    ensures ResolveCursor(after, path, after.root, false, limits).Ok?
  {
    var child := ChildPath(path, name);
    GoneParts(ns, after, top, i, c, limits);
    LeadsTree(ns, path, top, limits);
    hide TreeOk, LinksOk, ResolveCursor, PathTrace, Split, ChildGone, LeadsTo, Shrunk, Directories.Find, ChildPath;
    ShrunkResolve(ns, after, child, false, limits);
    ChildTrace(ns, path, top, name, limits);
    PathTraceIntact(ns, after, child, limits);
    AfterLeads(ns, after, path, top, i, c, limits);
    assert forall s :: s in PathTrace(ns, path, limits) ==> s in PathTrace(ns, child, limits);
  }

  lemma PathTraceIntact(before: Namespace, after: Namespace, path: text, limits: Limits)
    requires Shrunk(before, after) && TreeOk(before, limits) && TreeOk(after, limits)
    requires ResolveCursor(before, path, before.root, false, limits).Ok?
    ensures Split(path, limits).Ok?
    ensures ResolveCursor(after, path, after.root, false, limits).Ok? <==> Intact(after, PathTrace(before, path, limits))
    ensures ResolveCursor(after, path, after.root, false, limits).Ok? ==>
              && ResolveCursor(after, path, after.root, false, limits) == ResolveCursor(before, path, before.root, false, limits)
              && PathTrace(after, path, limits) == PathTrace(before, path, limits)
  {
    ResolvedSplits(before, path, limits);
    assert after.root == before.root;
    hide TreeOk, ResolveFrom, Trace, Split, Shrunk, Intact;
    TraceIntact(before, after, Start(before, path, before.root, Split(path, limits).value), false, limits, ExpansionLimit(limits));
  }

  lemma BuriedLast(entries: Entries, i: nat, k: nat, name: text)
    requires UniqueNames(entries) && i < |entries| && k < |entries| && k != i && !entries[k].IsDot()
    requires forall j :: 0 <= j < i ==> entries[j].deleted || entries[j].IsDot()
    requires entries[k].Named(NormalizeName(name))
    ensures IsLast(Bury(entries, i), name) <==> IsLast(entries, name)
  {
    var buried := Bury(entries, i);
    assert UniqueNames(buried);
    LastIs(entries, k, name);
    LastIs(buried, k, name);
    assert k > i;
    assert forall j :: k < j < |entries| ==> buried[j] == entries[j];
  }

  /** A lookup below the directory finds something after the first child is gone, if it finds the last
      name there and there is another child. */
  lemma LookupStays(ns: Namespace, after: Namespace, path: text, top: u64, i: nat, name: text, c: u64, s: Lookedup, limits: Limits)
    requires LeadsTo(ns, path, top, limits) && FirstIs(ns, top, i, name, c) && ChildGone(ns, after, top, i, c, limits)
    requires !AllRemoved(ns.dirs[top], i + 1) && LastOnly(ns, path, top, limits)
    requires Split(path, limits).Ok? && s in PathTrace(ns, path, limits)
    ensures after.Find(s.directory, s.name).Some?
  {
    hide LeadsTo, FirstIs, ChildGone, Below, Split, PathTrace, IsLast, AllRemoved, TreeOk, LinksOk, Directories.Find, Bury;
    PathIntact(ns, path, top, limits);
    FoundHere(ns, s);
    GoneParts(ns, after, top, i, c, limits);
    if s.directory == top {
      BelowTop(ns.dirs, top);
      if s.name == DOTDOT {
        TreeParent(after, limits, top);
      } else {
        TraceNames(ns, path, s, limits);
        LastStays(ns, after, path, top, i, name, c, s.name, limits);
      }
    } else {
      if Below(ns.dirs, c, s.directory) {
        NeverFirst(ns, path, top, i, name, c, s, limits);
      }
      TableKept(ns, after, top, i, c, s.directory, limits);
      SameTableFinds(ns, after, s.directory, s.name);
    }
  }

  lemma SameTableFinds(ns: Namespace, after: Namespace, d: u64, name: text)
    requires d in ns.dirs && d in after.dirs && after.dirs[d] == ns.dirs[d]
    ensures after.Find(d, name) == ns.Find(d, name)
  {
  }

  /** The last name is not the first while there is another child. */
  lemma LastStays(ns: Namespace, after: Namespace, path: text, top: u64, i: nat, name: text, c: u64, other: text, limits: Limits)
    requires LeadsTo(ns, path, top, limits) && FirstIs(ns, top, i, name, c) && ChildGone(ns, after, top, i, c, limits)
    requires !AllRemoved(ns.dirs[top], i + 1) && IsLast(ns.dirs[top], other) && other != DOT && other != DOTDOT
    requires ns.Find(top, other).Some?
    ensures after.Find(top, other).Some?
  {
    LeadsTree(ns, path, top, limits);
    GoneParts(ns, after, top, i, c, limits);
    hide LeadsTo, FirstIs, ChildGone, TreeOk, LinksOk;
    var k := FoundAt(ns, top, other, limits);
    LastIs(ns.dirs[top], k, other);
    assert k != i;
    assert after.dirs[top][k] == ns.dirs[top][k];
    assert after.dirs[top][k].Named(NormalizeName(other));
  }

  /** A path that uses only last names does not pass through the first of several children. */
  lemma NeverFirst(ns: Namespace, path: text, top: u64, i: nat, name: text, c: u64, s: Lookedup, limits: Limits)
    requires LeadsTo(ns, path, top, limits) && FirstIs(ns, top, i, name, c)
    requires !AllRemoved(ns.dirs[top], i + 1) && LastOnly(ns, path, top, limits)
    requires Split(path, limits).Ok? && s in PathTrace(ns, path, limits) && s.directory in ns.dirs
    ensures !Below(ns.dirs, c, s.directory)
  {
    hide LeadsTo, FirstIs, Below, Split, Trace, IsLast, AllRemoved, TreeOk, LinksOk, Directories.Find;
    if Below(ns.dirs, c, s.directory) {
      LeadsTree(ns, path, top, limits);
      ChildBelow(ns, path, top, i, name, c, limits);
      RootOutside(ns, c, limits);
      var e := TraceEnters(ns, Start(ns, path, ns.root, Split(path, limits).value), false, limits, ExpansionLimit(limits), c, s);
      BelowTop(ns.dirs, top);
      var k := FoundAt(ns, top, e.name, limits);
      LastIs(ns.dirs[top], k, e.name);
      FirstEntry(ns, top, i, name, c);
      FirstIndex(ns, top, i, name, c);
      OnePlaceFor(ns, top, i, k, c, limits);
    }
  }

  lemma OnePlaceFor(ns: Namespace, top: u64, i: nat, k: nat, c: u64, limits: Limits)
    requires TreeOk(ns, limits) && LinksOk(ns) && c in ns.dirs && c != ns.root && top in ns.dirs
    requires 2 <= i < |ns.dirs[top]| && !ns.dirs[top][i].deleted && ns.dirs[top][i].inode == c
    requires 2 <= k < |ns.dirs[top]| && !ns.dirs[top][k].deleted && ns.dirs[top][k].inode == c
    ensures i == k
  {
    hide TreeOk, LinksOk, Links;
    TreeRoot(ns, limits);
    OneName(ns, c, limits);
    LinkMeans(ns.dirs, c, top, i);
    LinkMeans(ns.dirs, c, top, k);
    OneMember(Links(ns.dirs, c), (top, i as int), (top, k as int));
  }

  lemma {:induction false} SpelledBefore(ns: Namespace, after: Namespace, d: u64, below: Components)
    requires Shrunk(ns, after) && Spelled(after, d, below)
    ensures Spelled(ns, d, below)
    decreases |below|
  {
    if below != [] {
      var x: u64 :| HasName(after, d, below[0], x) && Spelled(after, x, below[1..]);
      SpelledBefore(ns, after, x, below[1..]);
      var i: nat :| HasEntry(after.dirs[d], i, below[0], x);
      assert Thinned(ns.dirs[d], after.dirs[d]);
      assert HasEntry(ns.dirs[d], i, below[0], x);
    }
  }

  /** Of a table that lost its first child the other lookups are last, or not, as before. */
  lemma LastAfter(ns: Namespace, after: Namespace, path: text, top: u64, i: nat, name: text, c: u64, s: Lookedup, limits: Limits)
    requires LeadsTo(ns, path, top, limits) && FirstIs(ns, top, i, name, c) && ChildGone(ns, after, top, i, c, limits)
    requires after.Find(s.directory, s.name).Some? && s.name != DOT && s.name != DOTDOT
    ensures s.directory in ns.dirs && s.directory in after.dirs
    ensures IsLast(after.dirs[s.directory], s.name) <==> IsLast(ns.dirs[s.directory], s.name)
  {
    LeadsTree(ns, path, top, limits);
    GoneParts(ns, after, top, i, c, limits);
    FoundHere(after, s);
    TableGone(ns, after, top, i, c, s.directory, limits);
    hide LeadsTo, ChildGone, TreeOk, LinksOk, IsLast, Below, NameOk;
    if s.directory == top {
      var k := FoundAt(after, top, s.name, limits);
      assert k != i && ns.dirs[top][k] == after.dirs[top][k];
      UniqueIn(ns, top, limits);
      BuriedLast(ns.dirs[top], i, k, s.name);
    }
  }

  /** What clears a directory with several children clears it after the first of them. */
  lemma ClearsLater(ns: Namespace, after: Namespace, path: text, top: u64, i: nat, name: text, c: u64, limits: Limits)
    requires LeadsTo(ns, path, top, limits) && FirstIs(ns, top, i, name, c) && ChildGone(ns, after, top, i, c, limits)
    requires !AllRemoved(ns.dirs[top], i + 1) && Clears(ns, path, top, limits)
    ensures LeadsTo(after, path, top, limits) && Clears(after, path, top, limits)
  {
    GoneParts(ns, after, top, i, c, limits);
    hide LeadsTo, FirstIs, ChildGone, Below, Split, PathTrace, IsLast, AllRemoved, TreeOk, LinksOk, Directories.Find, Shrunk, ResolveCursor;
    AfterLeads(ns, after, path, top, i, c, limits);
    forall s | s in PathTrace(ns, path, limits) ensures after.Find(s.directory, s.name).Some? {
      LookupStays(ns, after, path, top, i, name, c, s, limits);
    }
    forall below: Components | Spelled(after, top, below) ensures Split(PathBelow(path, below), limits).Ok? {
      SpelledBefore(ns, after, top, below);
    }
    forall s | s in PathTrace(after, path, limits) && Below(after.dirs, top, s.directory) && s.name != DOTDOT
      ensures s.directory in after.dirs && IsLast(after.dirs[s.directory], s.name)
    {
      BelowBefore(ns, after, top, s.directory);
      TraceNames(ns, path, s, limits);
      LastAfter(ns, after, path, top, i, name, c, s, limits);
    }
  }

  // ----- Both together -----

  lemma {:induction false} KeptSpelled(ns: Namespace, after: Namespace, x: u64, below: Components, limits: Limits)
    requires TreeOk(ns, limits) && Spelled(ns, x, below)
    requires forall d :: d in ns.dirs && Below(ns.dirs, x, d) ==> d in after.dirs && after.dirs[d] == ns.dirs[d]
    ensures Spelled(after, x, below)
    decreases |below|
  {
    if below != [] {
      var y: u64 :| HasName(ns, x, below[0], y) && Spelled(ns, y, below[1..]);
      BelowTop(ns.dirs, x);
      assert HasName(after, x, below[0], y);
      hide HasName, Below;
      if below[1..] != [] {
        assert y in ns.dirs by { SpelledIn(ns, y, below[1..]); }
        NamedIn(ns, x, below[0], y, limits);
        forall d | d in ns.dirs && Below(ns.dirs, y, d) ensures d in after.dirs && after.dirs[d] == ns.dirs[d] {
          var n := BelowSome(ns.dirs, y, d);
          BelowChild(ns, x, y, d, n);
        }
        KeptSpelled(ns, after, y, below[1..], limits);
      } else {
        assert Spelled(after, y, []);
      }
    }
  }

  lemma SpelledIn(ns: Namespace, d: u64, below: Components)
    requires Spelled(ns, d, below) && below != []
    ensures d in ns.dirs
  {
  }

  lemma NamedIn(ns: Namespace, d: u64, name: text, x: u64, limits: Limits)
    requires TreeOk(ns, limits) && HasName(ns, d, name, x)
    ensures x in ns.inodes && x != ns.root && (x in ns.dirs ==> |ns.dirs[x]| >= 2 && Up(ns.dirs, x) == d)
    ensures exists k: nat :: k >= 2 && HasEntry(ns.dirs[d], k, name, x)
  {
    var i: nat :| HasEntry(ns.dirs[d], i, name, x);
    assert TableOk(d, ns.dirs[d], limits);
    assert i >= 2;
    assert NameOk(ns, d, ns.dirs[d][i]);
  }

  lemma BelowChild(ns: Namespace, x: u64, y: u64, d: u64, n: nat)
    requires y in ns.dirs && |ns.dirs[y]| >= 2 && Up(ns.dirs, y) == x && BelowIn(ns.dirs, y, d, n)
    ensures Below(ns.dirs, x, d)
  {
    BelowChildIn(ns.dirs, x, y, d, n);
  }

  /** A path below another child is a path below still. */
  lemma OtherSpelled(ns: Namespace, after: Namespace, path: text, top: u64, i: nat, name: text, c: u64, below: Components, limits: Limits)
    requires LeadsTo(ns, path, top, limits) && FirstIs(ns, top, i, name, c) && ChildGone(ns, after, top, i, c, limits)
    requires Spelled(ns, top, below) && below != []
    ensures Spelled(after, top, below) || (below[0] == name && Spelled(ns, c, below[1..]))
  {
    LeadsTree(ns, path, top, limits);
    GoneParts(ns, after, top, i, c, limits);
    hide LeadsTo, FirstIs, ChildGone, TreeOk, LinksOk, Below;
    var x: u64 :| HasName(ns, top, below[0], x) && Spelled(ns, x, below[1..]);
    NamedIn(ns, top, below[0], x, limits);
    var k: nat :| k >= 2 && HasEntry(ns.dirs[top], k, below[0], x);
    FirstEntry(ns, top, i, name, c);
    if k != i {
      assert HasEntry(after.dirs[top], k, below[0], x);
      assert HasName(after, top, below[0], x);
      hide HasName, HasEntry;
      if below[1..] != [] {
        SpelledIn(ns, x, below[1..]);
        SiblingKept(ns, after, path, top, i, name, c, k, x, below[0], limits);
        KeptSpelled(ns, after, x, below[1..], limits);
      } else {
        assert Spelled(after, x, []);
      }
    }
  }

  lemma SiblingKept(ns: Namespace, after: Namespace, path: text, top: u64, i: nat, name: text, c: u64, k: nat, x: u64, other: text, limits: Limits)
    requires LeadsTo(ns, path, top, limits) && FirstIs(ns, top, i, name, c) && ChildGone(ns, after, top, i, c, limits)
    requires x in ns.dirs && x != ns.root && |ns.dirs[x]| >= 2 && Up(ns.dirs, x) == top
    requires top in ns.dirs && k >= 2 && k != i && HasEntry(ns.dirs[top], k, other, x)
    ensures forall d :: d in ns.dirs && Below(ns.dirs, x, d) ==> d in after.dirs && after.dirs[d] == ns.dirs[d]
  {
    LeadsTree(ns, path, top, limits);
    Hangs(ns, path, top, limits);
    hide LeadsTo, FirstIs, ChildGone, TreeOk, LinksOk, Below;
    ChildBelow(ns, path, top, i, name, c, limits);
    FirstEntry(ns, top, i, name, c);
    FirstIndex(ns, top, i, name, c);
    if c == x {
      OnePlaceFor(ns, top, i, k, c, limits);
    }
    BelowUp(ns.dirs, ns.root, x);
    NotAbove(ns, x, limits);
    forall d | d in ns.dirs && Below(ns.dirs, x, d) ensures d in after.dirs && after.dirs[d] == ns.dirs[d] {
      var n := BelowSome(ns.dirs, x, d);
      if c in ns.dirs {
        Siblings(ns, x, c, d, n, limits);
      } else if Below(ns.dirs, c, d) {
        assert false;
      }
      TableKept(ns, after, top, i, c, d, limits);
    }
  }

  lemma FirstIndex(ns: Namespace, top: u64, i: nat, name: text, c: u64)
    requires FirstIs(ns, top, i, name, c)
    ensures 2 <= i && top in ns.dirs && i < |ns.dirs[top]|
  {
  }

  lemma {:induction false} BelowAfterTop(ns: Namespace, after: Namespace, top: u64, d: u64, n: nat, limits: Limits)
    requires Shrunk(ns, after) && TreeOk(after, limits) && d in after.dirs && BelowIn(ns.dirs, top, d, n)
    ensures Below(after.dirs, top, d)
    decreases n
  {
    if d == top {
      BelowTop(after.dirs, top);
    } else {
      assert Thinned(ns.dirs[d], after.dirs[d]);
      TreeParent(after, limits, d);
      hide TreeOk, Shrunk, Thinned, Below;
      BelowAfterTop(ns, after, top, Up(ns.dirs, d), n - 1, limits);
      BelowUp(after.dirs, top, d);
    }
  }

  /** A directory is cleared if its first child is, and it is cleared after that. */
  lemma ClearsBoth(ns: Namespace, after: Namespace, path: text, top: u64, i: nat, name: text, c: u64, limits: Limits)
    requires LeadsTo(ns, path, top, limits) && FirstIs(ns, top, i, name, c) && ChildGone(ns, after, top, i, c, limits)
    requires Split(ChildPath(path, name), limits).Ok? && Clears(ns, ChildPath(path, name), c, limits)
    requires LeadsTo(after, path, top, limits) && Clears(after, path, top, limits)
    ensures Clears(ns, path, top, limits)
  {
    GoneParts(ns, after, top, i, c, limits);
    Hangs(ns, path, top, limits);
    LeadsTree(ns, path, top, limits);
    AfterLeads(ns, after, path, top, i, c, limits);
    hide LeadsTo, FirstIs, ChildGone, Below, Split, PathTrace, IsLast, TreeOk, LinksOk, Directories.Find, Shrunk, ResolveCursor;
    PathIntact(after, path, top, limits);
    forall below: Components | Spelled(ns, top, below) ensures Split(PathBelow(path, below), limits).Ok? {
      if below != [] {
        OtherSpelled(ns, after, path, top, i, name, c, below, limits);
      }
    }
    forall s | s in PathTrace(ns, path, limits) && Below(ns.dirs, top, s.directory) && s.name != DOTDOT
      ensures s.directory in ns.dirs && IsLast(ns.dirs[s.directory], s.name)
    {
      assert after.Find(s.directory, s.name).Some?;
      FoundHere(after, s);
      TraceNames(ns, path, s, limits);
      LastAfter(ns, after, path, top, i, name, c, s, limits);
      var n := BelowSome(ns.dirs, top, s.directory);
      BelowAfterTop(ns, after, top, s.directory, n, limits);
    }
  }

  // ----- The loop over the children -----

  lemma RemovedFirst(fs: Fs, path: text, top: u64, i: nat, name: text, c: u64, limits: Limits)
    requires CoreInv(fs.core, limits) && NeverDecides(limits)
    requires LeadsTo(fs.core.Names(), path, top, limits) && FirstIs(fs.core.Names(), top, i, name, c)
    requires RemovePath(fs, ChildPath(path, name), true, limits).1.Ok?
    ensures var mid := RemovePath(fs, ChildPath(path, name), true, limits).0;
            && CoreInv(mid.core, limits) && EnsureWritable(mid) == EnsureWritable(fs)
            && ChildGone(fs.core.Names(), mid.core.Names(), top, i, c, limits)
  {
    hide CoreInv, LeadsTo, FirstIs, NeverDecides, RemovePath, TakenAway, Gone, Below, Resolve, TreeOk, LinksOk, OwnershipOk, StillOk, EntriesOk, Table.Valid, Allocation.Valid, Shrunk, ChildPath, OnlyBelow;
    var names, child := fs.core.Names(), ChildPath(path, name);
    var mid := RemovePath(fs, child, true, limits).0;
    RemovePathEffect(fs, child, true, limits);
    RemovePathFrame(fs, child, true, limits);
    TopGone(fs, child, true, limits);
    InvPieces(mid.core, limits);
    ResolvedChild(names, path, top, i, name, c, limits);
    NoneLeft(names, mid.core.Names(), c, limits);
    ChildBelow(names, path, top, i, name, c, limits);
    FirstHas(names, top, i, name, c);
    TopBuried(names, mid.core.dirs, Resolve(names, child, names.root, false, limits).value, top, i, name, c);
  }

  lemma ResolvedChild(ns: Namespace, path: text, top: u64, i: nat, name: text, c: u64, limits: Limits)
    requires LeadsTo(ns, path, top, limits) && FirstIs(ns, top, i, name, c) && NeverDecides(limits)
    requires Resolve(ns, ChildPath(path, name), ns.root, false, limits).Ok?
    ensures var at := Resolve(ns, ChildPath(path, name), ns.root, false, limits).value;
            at.inode == c && at.parent == top && at.name == name
  {
    hide LeadsTo, FirstIs, NeverDecides, Split, ResolveFrom, ChildPath, Render;
    ChildPathResolves(ns, path, top, i, name, c, limits);
  }

  lemma TopBuried(ns: Namespace, next: Dirs, at: ResolvedPath, top: u64, i: nat, name: text, c: u64)
    requires OnlyBelow(ns.dirs, next, at, true) && at.inode == c && at.parent == top && at.name == name
    requires FirstIs(ns, top, i, name, c) && !Below(ns.dirs, c, top)
    ensures top in ns.dirs && top in next && i < |ns.dirs[top]| && next[top] == Bury(ns.dirs[top], i)
    ensures forall d :: d in ns.dirs && d != top && !Below(ns.dirs, c, d) ==> d in next && next[d] == ns.dirs[d]
  {
    hide Below, FindIndex, Bury;
  }

  /** Removing the children of a directory one by one succeeds exactly if there are none, or the path clears
      the directory. */
  lemma {:induction false} RemoveChildrenIff(fs: Fs, path: text, top: u64, children: seq<text>, limits: Limits)
    requires CoreInv(fs.core, limits) && NeverDecides(limits) && EnsureWritable(fs).Ok?
    requires LeadsTo(fs.core.Names(), path, top, limits) && |path| <= limits.maxPathBytes
    requires top in fs.core.dirs && children == ChildNames(fs.core.dirs[top])
    ensures RemoveChildren(fs, path, children, limits).1.Ok? <==> children == [] || Clears(fs.core.Names(), path, top, limits)
    decreases Headroom(path, limits), 0, |children|, 0
  {
    hide CoreInv, LeadsTo, NeverDecides, RemovePath, RemoveChildren, Clears, ChildNames, FirstIs, ChildGone, Removable, ChildPath, Split, TreeOk, LinksOk, OwnershipOk, StillOk, EntriesOk, Table.Valid, Allocation.Valid, AllRemoved, ResolveCursor, Headroom, EnsureWritable;
    var ns := fs.core.Names();
    InvPieces(fs.core, limits);
    ChildrenPlain(ns, top, limits);
    RemoveChildrenStep(fs, path, children, limits);
    if children != [] {
      var name, rest := children[0], children[1..];
      var i := FirstFound(ns, top, limits);
      var c := ns.dirs[top][i].inode;
      var child := ChildPath(path, name);
      assert ChildName(name);
      ChildDeeper(path, name, limits);
      RemovePathIff(fs, child, limits);
      ChildRemovable(ns, path, top, i, name, c, limits);
      var (mid, r) := RemovePath(fs, child, true, limits);
      if r.Err? {
        if Clears(ns, path, top, limits) {
          ClearsChild(ns, path, top, i, name, c, limits);
        }
      } else {
        RemovedFirst(fs, path, top, i, name, c, limits);
        if rest == [] {
          ClearsOnly(ns, path, top, i, name, c, limits);
          RemoveChildrenStep(mid, path, rest, limits);
        } else {
          RemoveRestIff(fs, mid, path, top, i, name, c, rest, limits);
        }
      }
    }
  }

  /** The children after the first. */
  lemma {:induction false} RemoveRestIff(fs: Fs, mid: Fs, path: text, top: u64, i: nat, name: text, c: u64, rest: seq<text>, limits: Limits)
    requires CoreInv(fs.core, limits) && CoreInv(mid.core, limits) && NeverDecides(limits) && EnsureWritable(mid).Ok?
    requires LeadsTo(fs.core.Names(), path, top, limits) && |path| <= limits.maxPathBytes
    requires FirstIs(fs.core.Names(), top, i, name, c)
    requires ChildGone(fs.core.Names(), mid.core.Names(), top, i, c, limits)
    requires top in fs.core.dirs && i < |fs.core.dirs[top]| && !AllRemoved(fs.core.dirs[top], i + 1)
    requires rest != [] && rest == ChildNames(Bury(fs.core.dirs[top], i)) && forall n :: n in rest ==> ChildName(n)
    requires Split(ChildPath(path, name), limits).Ok? && Clears(fs.core.Names(), ChildPath(path, name), c, limits)
    ensures RemoveChildren(mid, path, rest, limits).1.Ok? <==> Clears(fs.core.Names(), path, top, limits)
    decreases Headroom(path, limits), 0, |rest|, 1
  {
    hide CoreInv, LeadsTo, NeverDecides, RemovePath, RemoveChildren, Clears, ChildNames, FirstIs, ChildGone, ChildPath, Split, AllRemoved, ResolveCursor, Headroom, EnsureWritable, Bury;
    var ns, after := fs.core.Names(), mid.core.Names();
    GoneTop(ns, after, top, i, c, limits);
    AfterLeads(ns, after, path, top, i, c, limits);
    if ResolveCursor(after, path, after.root, false, limits).Ok? {
      RemoveChildrenIff(mid, path, top, rest, limits);
      if Clears(ns, path, top, limits) {
        ClearsLater(ns, after, path, top, i, name, c, limits);
      }
      if Clears(after, path, top, limits) {
        ClearsBoth(ns, after, path, top, i, name, c, limits);
      }
    } else {
      RemoveChildrenStep(mid, path, rest, limits);
      assert ChildName(rest[0]);
      if RemovePath(mid, ChildPath(path, rest[0]), true, limits).1.Ok? {
        OkResolves(mid, ChildPath(path, rest[0]), true, limits);
        ChildStill(ns, after, path, top, i, c, rest[0], limits);
      }
      if Clears(ns, path, top, limits) {
        ClearsLater(ns, after, path, top, i, name, c, limits);
        LeadsResolved(after, path, top, limits);
      }
    }
  }

  lemma LeadsResolved(ns: Namespace, path: text, top: u64, limits: Limits)
    requires LeadsTo(ns, path, top, limits)
    ensures ResolveCursor(ns, path, ns.root, false, limits).Ok?
  {
    hide TreeOk, LinksOk, ResolveCursor;
  }

  lemma GoneTop(ns: Namespace, after: Namespace, top: u64, i: nat, c: u64, limits: Limits)
    requires ChildGone(ns, after, top, i, c, limits)
    ensures top in ns.dirs && i < |ns.dirs[top]| && top in after.dirs && after.dirs[top] == Bury(ns.dirs[top], i)
  {
    hide TreeOk, LinksOk, Shrunk, Below;
  }

  lemma OkResolves(fs: Fs, path: text, recursive: bool, limits: Limits)
    requires RemovePath(fs, path, recursive, limits).1.Ok?
    ensures var names := fs.core.Names(); ResolveCursor(names, path, names.root, false, limits).Ok?
  {
    hide ResolveCursor, RemoveChildren, ChildNames, DropName, Finished;
  }

  /** The path of the first child is one of a thing to remove exactly if it is within the limits and clears
      it. */
  lemma ChildRemovable(ns: Namespace, path: text, top: u64, i: nat, name: text, c: u64, limits: Limits)
    requires LeadsTo(ns, path, top, limits) && NeverDecides(limits) && FirstIs(ns, top, i, name, c)
    ensures Removable(ns, ChildPath(path, name), limits) <==>
            Split(ChildPath(path, name), limits).Ok? && Clears(ns, ChildPath(path, name), c, limits)
  {
    hide LeadsTo, FirstIs, NeverDecides, Split, Clears, ChildPath, ResolveFrom, Render, Directories.Find;
    LeadsTree(ns, path, top, limits);
    FirstHas(ns, top, i, name, c);
    if Split(ChildPath(path, name), limits).Ok? {
      ChildPathResolves(ns, path, top, i, name, c, limits);
    }
  }

  // ----- When a removal succeeds -----

  /** A recursive removal succeeds exactly if the filesystem can be written to, the path leads by a name to
      something other than the root, and it clears it. */
  lemma {:induction false} RemovePathIff(fs: Fs, path: text, limits: Limits)
    requires CoreInv(fs.core, limits) && NeverDecides(limits)
    ensures RemovePath(fs, path, true, limits).1.Ok? <==> EnsureWritable(fs).Ok? && Removable(fs.core.Names(), path, limits)
    decreases Headroom(path, limits), 1, 0
  {
    hide CoreInv, NeverDecides, RemoveChildren, Clears, ChildNames, Split, TreeOk, LinksOk, OwnershipOk, StillOk, EntriesOk, Table.Valid, Allocation.Valid, Resolve, ResolveCursor, Headroom, EnsureWritable, DropName, Finished, Vacant, Lookup;
    var ns := fs.core.Names();
    if EnsureWritable(fs).Ok? && Resolve(ns, path, ns.root, false, limits).Ok? {
      var at := Resolve(ns, path, ns.root, false, limits).value;
      InvPieces(fs.core, limits);
      PathFits(ns, path, limits);
      LookupHere(ns, at);
      if at.inode != ns.root && at.inode in ns.inodes {
        DirectoryIffTable(ns, at.inode, limits);
        var children := if at.inode in ns.dirs then ChildNames(ns.dirs[at.inode]) else [];
        ChildrenClear(fs, path, at.inode, children, limits);
        if RemoveChildren(fs, path, children, limits).1.Ok? {
          EmptiedIff(fs, path, children, limits);
        }
      }
    }
  }

  lemma LookupHere(ns: Namespace, at: ResolvedPath)
    ensures Lookup(ns, at.parent, at.name) == Some(at.inode) ==> at.inode in ns.inodes
  {
    hide Directories.Find;
  }

  lemma {:induction false} ChildrenClear(fs: Fs, path: text, top: u64, children: seq<text>, limits: Limits)
    requires CoreInv(fs.core, limits) && NeverDecides(limits) && EnsureWritable(fs).Ok?
    requires var ns := fs.core.Names();
             && ResolveCursor(ns, path, ns.root, false, limits).Ok?
             && ResolveCursor(ns, path, ns.root, false, limits).value.current == top != ns.root
             && children == (if top in ns.dirs then ChildNames(ns.dirs[top]) else [])
    requires |path| <= limits.maxPathBytes
    ensures RemoveChildren(fs, path, children, limits).1.Ok? <==> Clears(fs.core.Names(), path, top, limits)
    decreases Headroom(path, limits), 0, |children|, 2
  {
    hide CoreInv, NeverDecides, RemoveChildren, Clears, ChildNames, TreeOk, LinksOk, OwnershipOk, StillOk, EntriesOk, Table.Valid, Allocation.Valid, ResolveCursor, Headroom, EnsureWritable, Vacant;
    var ns := fs.core.Names();
    InvPieces(fs.core, limits);
    if top in ns.dirs {
      NoChildNames(ns.dirs[top]);
      RemoveChildrenIff(fs, path, top, children, limits);
    } else {
      RemoveNone(fs, path, limits);
    }
    if children == [] {
      ClearsVacant(ns, path, top, limits);
    }
  }

  lemma RemoveNone(fs: Fs, path: text, limits: Limits)
    requires |path| <= limits.maxPathBytes
    ensures RemoveChildren(fs, path, [], limits) == (fs, Ok(()))
  {
  }

  /** What is left of a removal once the children are gone succeeds exactly if the last step of the path was
      a name. */
  lemma EmptiedIff(fs: Fs, path: text, children: seq<text>, limits: Limits)
    requires CoreInv(fs.core, limits)
    requires var ns := fs.core.Names();
             var at := Resolve(ns, path, ns.root, false, limits);
             && at.Ok? && at.value.inode != ns.root && at.value.inode in ns.inodes
             && children == (if at.value.inode in ns.dirs then ChildNames(ns.dirs[at.value.inode]) else [])
    requires |path| <= limits.maxPathBytes && RemoveChildren(fs, path, children, limits).1.Ok?
    ensures var ns := fs.core.Names();
            var at := Resolve(ns, path, ns.root, false, limits).value;
            DropName(RemoveChildren(fs, path, children, limits).0.core, at).1.Ok? <==>
            Lookup(ns, at.parent, at.name) == Some(at.inode)
  {
    hide CoreInv, RemoveChildren, ChildNames, TreeOk, LinksOk, OwnershipOk, StillOk, EntriesOk, Table.Valid, Allocation.Valid, Resolve, ResolveCursor, Headroom, DropName, Finished, Shrunk, Gone, Left, Below, NameDropped, TakenAway, Directories.Find;
    var ns := fs.core.Names();
    var at := Resolve(ns, path, ns.root, false, limits).value;
    InvPieces(fs.core, limits);
    DirectoryIffTable(ns, at.inode, limits);
    PathFits(ns, path, limits);
    ShrunkReflexive(ns);
    ChildrenPlain(ns, at.inode, limits);
    RemoveChildrenEffect(ns, fs, path, children, limits);
    RemoveChildrenFrame(ns, fs, path, children, limits);
    var emptied := RemoveChildren(fs, path, children, limits).0;
    RemoveEmptied(fs, emptied, path, limits);
    MidShrunk(fs, emptied, limits);
    ResolvedName(ns, path, limits);
    if at.inode !in ns.dirs {
      RemoveNone(fs, path, limits);
    }
    if at.inode in emptied.core.dirs {
      AllGoneVacant(ns, emptied.core.Names(), at.inode) by {
        ShrunkDirs(ns, emptied.core.Names(), at.inode);
      }
    }
    hide Vacant;
    NameStays(ns, emptied.core.Names(), path, at, limits);
  }

  /** The name of a directory stays while what is below it goes. */
  lemma NameStays(ns: Namespace, after: Namespace, path: text, at: ResolvedPath, limits: Limits)
    requires TreeOk(ns, limits) && LinksOk(ns) && Shrunk(ns, after) && at.inode != ns.root && at.inode in ns.inodes
    requires Resolve(ns, path, ns.root, false, limits) == Ok(at)
    requires if at.inode in ns.dirs then TablesKept(ns.dirs, after.dirs, at.inode) else after == ns
    requires at.inode in after.dirs ==> Vacant(after.dirs[at.inode])
    ensures after.Find(at.parent, at.name).Some? && at.name != DOT && at.name != DOTDOT <==>
            Lookup(ns, at.parent, at.name) == Some(at.inode)
  {
    hide TreeOk, LinksOk, Shrunk, Resolve, ResolveCursor, Below, Vacant, Directories.Find;
    ResolvedName(ns, path, limits);
    TreeRoot(ns, limits);
    FindIsHere(ns.dirs, at.parent, at.name);
    if at.inode in ns.dirs {
      DirectoryHangs(ns, path, at, limits);
      NotAbove(ns, at.inode, limits);
      BelowTop(ns.dirs, at.inode);
      if ns.Find(at.parent, at.name).Some? && ns.Find(at.parent, at.name).value.inode == at.inode {
        NamedUp(ns, at, limits);
        SameTableFinds(ns, after, at.parent, at.name);
      } else if at.inode in after.dirs {
        VacantFindsNothing(after, at.inode, at.name);
      } else {
        FindIsHere(after.dirs, at.parent, at.name);
      }
    }
  }

  lemma DirectoryHangs(ns: Namespace, path: text, at: ResolvedPath, limits: Limits)
    requires TreeOk(ns, limits) && LinksOk(ns) && at.inode != ns.root && at.inode in ns.dirs
    requires Resolve(ns, path, ns.root, false, limits) == Ok(at)
    ensures Below(ns.dirs, ns.root, at.inode)
  {
    hide TreeOk, LinksOk, ResolveCursor, Render;
    PathFits(ns, path, limits);
    Hangs(ns, path, at.inode, limits);
  }

  /** A removal without recursion succeeds exactly if the filesystem can be written to, the path leads by a
      name to something other than the root, and that is no directory with an entry left. */
  lemma RemoveSingleIff(fs: Fs, path: text, limits: Limits)
    requires CoreInv(fs.core, limits)
    ensures RemovePath(fs, path, false, limits).1.Ok? <==>
            && EnsureWritable(fs).Ok? && Named(fs.core.Names(), path, limits)
            && Emptied(fs.core.Names(), Resolve(fs.core.Names(), path, fs.core.superblock.rootInode, false, limits).value.inode)
  {
    hide CoreInv, RemoveChildren, ChildNames, TreeOk, LinksOk, OwnershipOk, StillOk, EntriesOk, Table.Valid, Allocation.Valid, Resolve, EnsureWritable, DropName, Finished, Lookup;
    var ns := fs.core.Names();
    if EnsureWritable(fs).Ok? && Resolve(ns, path, ns.root, false, limits).Ok? {
      var at := Resolve(ns, path, ns.root, false, limits).value;
      InvPieces(fs.core, limits);
      PathFits(ns, path, limits);
      LookupHere(ns, at);
      if at.inode != ns.root && at.inode in ns.inodes {
        DirectoryIffTable(ns, at.inode, limits);
        if at.inode in ns.dirs {
          NoChildNames(ns.dirs[at.inode]);
        }
        RemoveNone(fs, path, limits);
        if Emptied(ns, at.inode) {
          EmptiedIff(fs, path, [], limits);
        }
      }
    }
  }

  /** No directory, or one with nothing but removed entries and the two dots. */
  predicate Emptied(ns: Namespace, id: u64) {
    id in ns.dirs ==>
      forall i :: 0 <= i < |ns.dirs[id]| ==>
        ns.dirs[id][i].deleted || ns.dirs[id][i].name == DOT || ns.dirs[id][i].name == DOTDOT
  }

  // ----- Plain paths -----

  lemma LeadsAt(ns: Namespace, components: Components, i: nat)
    requires LeadsBy(ns, components) && i < |components|
    ensures components[i] != [] && PathTheorems.Walk(ns, ns.root, components[..i + 1]).Some?
    ensures ns.inodes[PathTheorems.Walk(ns, ns.root, components[..i + 1]).value].inodeType != SymbolicLink
  {
    hide PathTheorems.Walk;
    var n := i + 1;
    assert PathTheorems.Walk(ns, ns.root, components[..n]).Some? && components[n - 1] != [];
  }

  /** The lookups of a path of names alone are those of its names, each in the directory before. */
  lemma {:induction false} NamesTrace(ns: Namespace, c: Cursor, components: Components, k: nat, limits: Limits, budget: nat, s: Lookedup) returns (i: nat)
    requires Bounded(c, limits) && (limits.maxSymlinkDepth == TWO32 - 1 ==> budget == 0)
    requires LeadsBy(ns, components) && AtName(ns, c, components, k) && |components| <= budget < TWO32
    requires s in Trace(ns, c, false, limits, budget)
    ensures i < |components| && PathTheorems.Walk(ns, ns.root, components[..i]) == Some(s.directory)
    decreases |components| - k
  {
    assert components[|components|..] == [];
    if k < |components| {
      PendingLeft(ns, c, components, k);
      LeadsAt(ns, components, k);
      AdvanceByName(ns, c, components, k, false, limits, budget);
      if s in Asked(c) {
        i := k;
      } else {
        hide Advance, AtName, LeadsBy, Bounded;
        AdvanceProgress(ns, c, false, limits, budget);
        i := NamesTrace(ns, Advance(ns, c, false, limits, budget).value, components, k + 1, limits, budget, s);
      }
    }
  }

  /** The directories a list of names leads through are not below the one it leads to. */
  lemma {:induction false} PrefixAbove(ns: Namespace, components: Components, i: nat, top: u64, limits: Limits)
    requires TreeOk(ns, limits) && i < |components| && top in ns.dirs && top != ns.root && Below(ns.dirs, ns.root, top)
    requires LeadsBy(ns, components) && PathTheorems.Walk(ns, ns.root, components) == Some(top)
    ensures PathTheorems.Walk(ns, ns.root, components[..i]).Some?
    ensures !Below(ns.dirs, top, PathTheorems.Walk(ns, ns.root, components[..i]).value)
    decreases |components| - i
  {
    var next := components[..i + 1];
    assert next[..|next| - 1] == components[..i] && next[|next| - 1] == components[i];
    assert components[..|components|] == components;
    LeadsAt(ns, components, i);
    hide TreeOk, LeadsBy, Below, Directories.Find;
    var d := PathTheorems.Walk(ns, ns.root, components[..i]).value;
    var x := PathTheorems.Walk(ns, ns.root, next).value;
    assert Lookup(ns, d, components[i]) == Some(x);
    EntryIs(ns, d, components[i], limits);
    if i + 1 == |components| {
      NotAbove(ns, top, limits);
    } else {
      PrefixAbove(ns, components, i + 1, top, limits);
      TreeRoot(ns, limits);
      if Below(ns.dirs, top, d) {
        assert x in ns.dirs by { NextDirectory(ns, components, i, limits); }
        BelowUp(ns.dirs, top, x);
      }
    }
  }

  lemma NextDirectory(ns: Namespace, components: Components, i: nat, limits: Limits)
    requires TreeOk(ns, limits) && LeadsBy(ns, components) && i + 1 < |components|
    ensures PathTheorems.Walk(ns, ns.root, components[..i + 1]).Some?
    ensures PathTheorems.Walk(ns, ns.root, components[..i + 1]).value in ns.dirs
  {
    hide LeadsBy, TreeOk;
    LeadsAt(ns, components, i + 1);
    assert components[..i + 2][..i + 1] == components[..i + 1] && components[..i + 2][i + 1] == components[i + 1];
    TreeRoot(ns, limits);
  }

  /** A directory given by a path of names alone, past no link, is removed with everything below exactly if
      the filesystem can be written to, it is not the root, and every path below is within the limits. */
  lemma PlainRemovalIff(fs: Fs, path: text, components: Components, limits: Limits)
    requires CoreInv(fs.core, limits) && NeverDecides(limits)
    requires path != [] && path[0] == SLASH && Split(path, limits) == Ok(components)
    requires LeadsBy(fs.core.Names(), components) && |components| <= ExpansionLimit(limits)
    ensures var ns := fs.core.Names();
            && PathTheorems.Walk(ns, ns.root, components).Some?
            && (RemovePath(fs, path, true, limits).1.Ok? <==>
                  && EnsureWritable(fs).Ok? && components != []
                  && EveryPathFits(ns, path, PathTheorems.Walk(ns, ns.root, components).value, limits))
  {
    hide CoreInv, NeverDecides, RemovePath, Split, TreeOk, LinksOk, OwnershipOk, StillOk, EntriesOk, Table.Valid, Allocation.Valid, EnsureWritable, EveryPathFits, ExpansionLimit, ResolveFrom, LeadsBy;
    var ns := fs.core.Names();
    InvPieces(fs.core, limits);
    RemovePathIff(fs, path, limits);
    NamesResolve(ns, path, components, false, limits);
    if components != [] {
      PlainNamed(ns, path, components, limits);
      PlainLast(ns, path, components, limits);
    }
  }

  lemma PlainNamed(ns: Namespace, path: text, components: Components, limits: Limits)
    requires TreeOk(ns, limits) && LinksOk(ns) && components != []
    requires path != [] && path[0] == SLASH && Split(path, limits) == Ok(components)
    requires LeadsBy(ns, components) && |components| <= ExpansionLimit(limits)
    ensures Named(ns, path, limits)
    ensures Some(Resolve(ns, path, ns.root, false, limits).value.inode) == PathTheorems.Walk(ns, ns.root, components)
  {
    hide Split, TreeOk, LinksOk, ExpansionLimit, ResolveFrom, LeadsBy, Render, Directories.Find;
    NamesResolve(ns, path, components, false, limits);
    var at := Resolve(ns, path, ns.root, false, limits).value;
    assert Lookup(ns, at.parent, components[|components| - 1]) == Some(at.inode);
    EntryIs(ns, at.parent, at.name, limits);
  }

  lemma WrappedLimit(limits: Limits)
    ensures limits.maxSymlinkDepth == TWO32 - 1 ==> ExpansionLimit(limits) == 0
  {
  }

  lemma PlainLast(ns: Namespace, path: text, components: Components, limits: Limits)
    requires TreeOk(ns, limits) && LinksOk(ns) && components != []
    requires path != [] && path[0] == SLASH && Split(path, limits) == Ok(components)
    requires LeadsBy(ns, components) && |components| <= ExpansionLimit(limits)
    ensures PathTheorems.Walk(ns, ns.root, components).Some?
    ensures LastOnly(ns, path, PathTheorems.Walk(ns, ns.root, components).value, limits)
  {
    hide Split, TreeOk, LinksOk, ExpansionLimit, ResolveCursor, LeadsBy, Below, Trace, IsLast, Directories.Find;
    NamesResolve(ns, path, components, false, limits);
    PlainNamed(ns, path, components, limits);
    ResolvedIntact(ns, path, limits);
    var top := PathTheorems.Walk(ns, ns.root, components).value;
    var c := Start(ns, path, ns.root, components);
    assert components[0..] == components && components[..0] == [];
    WrappedLimit(limits);
    forall s | s in PathTrace(ns, path, limits) ensures !Below(ns.dirs, top, s.directory) {
      FoundHere(ns, s);
      var i := NamesTrace(ns, c, components, 0, limits, ExpansionLimit(limits), s);
      if top in ns.dirs {
        Hangs(ns, path, top, limits);
        PrefixAbove(ns, components, i, top, limits);
      } else if Below(ns.dirs, top, s.directory) {
        var n := BelowSome(ns.dirs, top, s.directory);
        NotBelowFile(ns, top, s.directory, n, limits);
      }
    }
  }
}
