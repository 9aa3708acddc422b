/** What a removal leaves alone: every table that is not below the place it was asked to remove. */
module FsRemoveFrame {
  import opened Base
  import opened Allocators
  import opened Inodes
  import opened InodeTables
  import opened Directories
  import opened Paths
  import opened PathTheorems
  import opened Trees
  import opened TreeOps
  import opened PathStability
  import opened FsModel
  import opened FsInvariant
  import opened FsRemove
  import opened FsRemovePath

  // ----- Below a directory -----

  /** `n` steps up through ".." lead from `d` to `top`, or fewer. */
  predicate BelowIn(dirs: Dirs, top: u64, d: u64, n: nat)
    decreases n
  {
    d == top || (n > 0 && d in dirs && |dirs[d]| >= 2 && BelowIn(dirs, top, Up(dirs, d), n - 1))
  }

  ghost predicate Below(dirs: Dirs, top: u64, d: u64) {
    exists n: nat :: BelowIn(dirs, top, d, n)
  }

  lemma {:induction false} BelowChildIn(dirs: Dirs, top: u64, c: u64, d: u64, n: nat)
    requires c in dirs && |dirs[c]| >= 2 && Up(dirs, c) == top && BelowIn(dirs, c, d, n)
    ensures BelowIn(dirs, top, d, n + 1)
    decreases n
  {
    if d == c {
      assert BelowIn(dirs, top, top, n);
    } else {
      BelowChildIn(dirs, top, c, Up(dirs, d), n - 1);
    }
  }

  lemma {:induction false} NotBelowFile(ns: Namespace, id: u64, d: u64, n: nat, limits: Limits)
    requires TreeOk(ns, limits) && id !in ns.dirs && d in ns.dirs
    ensures !BelowIn(ns.dirs, id, d, n)
    decreases n
  {
    if n > 0 && |ns.dirs[d]| >= 2 {
      assert Up(ns.dirs, d) in ns.dirs;
      hide TreeOk;
      NotBelowFile(ns, id, Up(ns.dirs, d), n - 1, limits);
    }
  }

  lemma {:induction false} BelowBeforeIn(before: Namespace, after: Namespace, top: u64, d: u64, n: nat)
    requires Shrunk(before, after) && BelowIn(after.dirs, top, d, n)
    ensures BelowIn(before.dirs, top, d, n)
    decreases n
  {
    if d != top {
      assert Thinned(before.dirs[d], after.dirs[d]);
      assert Up(after.dirs, d) == Up(before.dirs, d);
      BelowBeforeIn(before, after, top, Up(after.dirs, d), n - 1);
    }
  }

  /** Removing names moves no directory. */
  lemma BelowBefore(before: Namespace, after: Namespace, top: u64, d: u64)
    requires Shrunk(before, after) && Below(after.dirs, top, d)
    ensures Below(before.dirs, top, d)
  {
    hide Shrunk, BelowIn;
    var n: nat :| BelowIn(after.dirs, top, d, n);
    BelowBeforeIn(before, after, top, d, n);
  }

  /** What is below something named in a directory is below the directory. */
  lemma BelowNamed(ns: Namespace, at: ResolvedPath, d: u64, limits: Limits)
    requires TreeOk(ns, limits) && d in ns.dirs && Below(ns.dirs, at.inode, d)
    requires at.parent == at.inode || (ns.Find(at.parent, at.name).Some? && ns.Find(at.parent, at.name).value.inode == at.inode)
    requires at.name != DOT && at.name != DOTDOT
    ensures Below(ns.dirs, at.parent, d)
  {
    var n: nat :| BelowIn(ns.dirs, at.inode, d, n);
    if at.parent != at.inode {
      if at.inode in ns.dirs {
        NamedUp(ns, at, limits);
        hide TreeOk, BelowIn, Directories.Find;
        BelowChildIn(ns.dirs, at.parent, at.inode, d, n);
      } else {
        hide BelowIn;
        NotBelowFile(ns, at.inode, d, n, limits);
      }
    }
  }

  lemma NamedUp(ns: Namespace, at: ResolvedPath, limits: Limits)
    requires TreeOk(ns, limits) && at.inode in ns.dirs && at.name != DOT && at.name != DOTDOT
    requires ns.Find(at.parent, at.name).Some? && ns.Find(at.parent, at.name).value.inode == at.inode
    ensures |ns.dirs[at.inode]| >= 2 && Up(ns.dirs, at.inode) == at.parent
  {
    assert TableOk(at.parent, ns.dirs[at.parent], limits);
    NameFound(ns.dirs, at.parent, at.name, limits);
    var k := FindIndex(ns.dirs[at.parent], NormalizeName(at.name)).value;
    assert NameOk(ns, at.parent, ns.dirs[at.parent][k]);
  }

  // ----- What a removal keeps -----

  ghost predicate TablesKept(dirs: Dirs, next: Dirs, top: u64) {
    forall d :: d in dirs && !Below(dirs, top, d) ==> d in next && next[d] == dirs[d]
  }

  /** A table without the entry a name finds. */
  function Without(entries: Entries, name: text): Entries {
    var found := FindIndex(entries, NormalizeName(name));
    if found.Some? then Bury(entries, found.value) else entries
  }

  /** Every table not below the resolved place is kept, but for the resolved name itself once it is gone. */
  ghost predicate OnlyBelow(dirs: Dirs, next: Dirs, at: ResolvedPath, done: bool) {
    forall d :: d in dirs && !Below(dirs, at.inode, d) ==>
      d in next && next[d] == if done && d == at.parent then Without(dirs[d], at.name) else dirs[d]
  }

  lemma DroppedOnlyBelow(dirs: Dirs, emptied: Dirs, next: Dirs, at: ResolvedPath)
    requires TablesKept(dirs, emptied, at.inode) && NameDropped(emptied, next, at)
    ensures OnlyBelow(dirs, next, at, true)
  {
    hide FindIndex, Bury, BelowIn;
    forall d | d in dirs && !Below(dirs, at.inode, d)
      ensures d in next && next[d] == if d == at.parent then Without(dirs[d], at.name) else dirs[d]
    {
      assert BelowIn(dirs, at.inode, at.inode, 0) by { BelowItself(dirs, at.inode); }
      assert d != at.inode;
    }
  }

  lemma BelowItself(dirs: Dirs, d: u64)
    ensures BelowIn(dirs, d, d, 0)
  {
  }

  lemma KeptReflexive(dirs: Dirs, at: ResolvedPath)
    ensures TablesKept(dirs, dirs, at.inode) && OnlyBelow(dirs, dirs, at, false)
  {
  }

  lemma KeptOnlyBelow(dirs: Dirs, next: Dirs, at: ResolvedPath)
    requires TablesKept(dirs, next, at.inode)
    ensures OnlyBelow(dirs, next, at, false)
  {
    hide Below;
  }

  lemma KeptTransitive(before: Namespace, mid: Namespace, next: Dirs, top: u64)
    requires TablesKept(before.dirs, mid.dirs, top) && Shrunk(before, mid) && TablesKept(mid.dirs, next, top)
    ensures TablesKept(before.dirs, next, top)
  {
    hide Below, Shrunk;
    forall d | d in before.dirs && !Below(before.dirs, top, d) ensures d in next && next[d] == before.dirs[d] {
      if Below(mid.dirs, top, d) {
        BelowBefore(before, mid, top, d);
      }
    }
  }

  /** Removing by path, whole or broken off half way, changes no table but those below the resolved
      place and, once done, the one that held the resolved name. */
  lemma {:induction false} RemovePathFrame(fs: Fs, path: text, recursive: bool, limits: Limits)
    requires CoreInv(fs.core, limits)
    ensures var (next, r) := RemovePath(fs, path, recursive, limits);
            var names := fs.core.Names();
            var at := Resolve(names, path, names.root, false, limits);
            && (at.Err? || at.value.inode == names.root ==> next == fs && r.Err?)
            && (at.Ok? ==> OnlyBelow(fs.core.dirs, next.core.dirs, at.value, r.Ok?))
    decreases Headroom(path, limits), 1, 0
  {
    hide CoreInv, TreeOk, Shrunk, Gone, Resolve, ResolveCursor, Left, DropName, RemoveChildren, ChildNames, LinksOk, OwnershipOk, StillOk, Table.Valid, Allocation.Valid, EntriesOk, TakenAway, Finished, OnlyBelow, TablesKept, NameDropped;
    var names := fs.core.Names();
    var place := Resolve(names, path, names.root, false, limits);
    if place.Ok? {
      var at := place.value;
      KeptReflexive(fs.core.dirs, at);
      if EnsureWritable(fs).Ok? && at.inode != names.root && at.inode in names.inodes {
        var children := if names.IsDirectory(at.inode) && at.inode in names.dirs then ChildNames(names.dirs[at.inode]) else [];
        if children == [] || recursive {
          InvPieces(fs.core, limits);
          DirectoryIffTable(names, at.inode, limits);
          PathFits(names, path, limits);
          ShrunkReflexive(names);
          ChildrenPlain(names, at.inode, limits);
          RemoveChildrenEffect(names, fs, path, children, limits);
          RemoveChildrenFrame(names, fs, path, children, limits);
          var (emptied, r) := RemoveChildren(fs, path, children, limits);
          KeptOnlyBelow(fs.core.dirs, emptied.core.dirs, at);
          if r.Ok? {
            RemoveEmptied(fs, emptied, path, limits);
            var (core, d) := DropName(emptied.core, at);
            if d.Ok? {
              DroppedOnlyBelow(fs.core.dirs, emptied.core.dirs, core.dirs, at);
              FinishedDirs(emptied.(core := core), limits);
            }
          }
        }
      }
    }
  }

  lemma FinishedDirs(fs: Fs, limits: Limits)
    ensures Finished(fs, limits).core.dirs == fs.core.dirs
  {
    hide Allocation.Free;
  }

  /** Removing children by path changes no table but those below their directory. */
  lemma {:induction false} RemoveChildrenFrame(before: Namespace, fs: Fs, path: text, children: seq<text>, limits: Limits)
    requires CoreInv(fs.core, limits) && |path| <= limits.maxPathBytes
    requires TreeOk(before, limits) && Shrunk(before, fs.core.Names())
    requires ResolveCursor(before, path, before.root, false, limits).Ok?
    requires forall name :: name in children ==> ChildName(name)
    requires children != [] ==> before.IsDirectory(ResolveCursor(before, path, before.root, false, limits).value.current)
    ensures TablesKept(fs.core.dirs, RemoveChildren(fs, path, children, limits).0.core.dirs,
                       ResolveCursor(before, path, before.root, false, limits).value.current)
    decreases Headroom(path, limits), 0, |children|
  {
    RemoveChildrenStep(fs, path, children, limits);
    hide CoreInv, TreeOk, Shrunk, ResolveCursor, RemovePath, RemoveChildren, Left, ChildPath, ChildName, Headroom, TakenAway, Namespace.IsDirectory, TablesKept, OnlyBelow, Resolve;
    var top := ResolveCursor(before, path, before.root, false, limits).value.current;
    KeptReflexive(fs.core.dirs, ResolvedPath(top, top, [], [], 0));
    if children != [] {
      var name, rest := children[0], children[1..];
      var child := ChildPath(path, name);
      assert ChildName(name);
      ChildDeeper(path, name, limits);
      RemovePathEffect(fs, child, true, limits);
      RemovePathFrame(fs, child, true, limits);
      var (mid, r) := RemovePath(fs, child, true, limits);
      ChildKept(before, fs, mid, path, name, r.Ok?, limits);
      if r.Ok? {
        RemoveRest(before, fs, mid, path, name, r.value, limits);
        RemoveChildrenFrame(before, mid, path, rest, limits);
        MidShrunk(fs, mid, limits);
        KeptTransitive(fs.core.Names(), mid.core.Names(), RemoveChildren(mid, path, rest, limits).0.core.dirs, top);
      }
    }
  }

  lemma MidShrunk(fs: Fs, mid: Fs, limits: Limits)
    requires Left(fs, mid, limits)
    ensures Shrunk(fs.core.Names(), mid.core.Names())
  {
  }

  /** Seen from the directory, removing a child by path is something below it. */
  lemma ChildKept(before: Namespace, fs: Fs, mid: Fs, path: text, name: text, done: bool, limits: Limits)
    requires CoreInv(fs.core, limits)
    requires TreeOk(before, limits) && Shrunk(before, fs.core.Names()) && ChildName(name)
    requires ResolveCursor(before, path, before.root, false, limits).Ok?
    requires before.IsDirectory(ResolveCursor(before, path, before.root, false, limits).value.current)
    requires var names := fs.core.Names();
             var at := Resolve(names, ChildPath(path, name), names.root, false, limits);
             && (at.Err? || at.value.inode == names.root ==> mid == fs)
             && (at.Ok? ==> OnlyBelow(fs.core.dirs, mid.core.dirs, at.value, done))
    ensures TablesKept(fs.core.dirs, mid.core.dirs, ResolveCursor(before, path, before.root, false, limits).value.current)
  {
    hide CoreInv, TreeOk, ResolveCursor, Shrunk, Below, LinksOk, OwnershipOk, StillOk, Table.Valid, Allocation.Valid, EntriesOk, Without, Directories.Find;
    var names, child := fs.core.Names(), ChildPath(path, name);
    var top := ResolveCursor(before, path, before.root, false, limits).value.current;
    var place := Resolve(names, child, names.root, false, limits);
    if place.Ok? && place.value.inode != names.root {
      InvPieces(fs.core, limits);
      assert ResolveCursor(names, child, names.root, false, limits).Ok?;
      ShrunkResolve(before, names, child, false, limits);
      ResolveChild(before, path, name, limits);
      ResolvedName(names, child, limits);
      var at := place.value;
      assert at.parent == top;
      hide Resolve;
      forall d | d in names.dirs && !Below(names.dirs, top, d) ensures d in mid.core.dirs && mid.core.dirs[d] == names.dirs[d] {
        BelowTop(names.dirs, top);
        if Below(names.dirs, at.inode, d) {
          BelowNamed(names, at, d, limits);
        }
      }
    }
  }

  lemma BelowTop(dirs: Dirs, top: u64)
    ensures Below(dirs, top, top)
  {
    BelowItself(dirs, top);
  }

  // ----- Without recursion -----

  /** A removal without recursion takes the resolved name away, with an empty directory's table, and
      nothing else; refused, it changes nothing at all. */
  lemma RemoveSingle(fs: Fs, path: text, limits: Limits)
    requires CoreInv(fs.core, limits)
    ensures var (next, r) := RemovePath(fs, path, false, limits);
            var names := fs.core.Names();
            && (r.Err? ==> next == fs)
            && (r.Ok? ==> Resolve(names, path, names.root, false, limits).Ok?
                          && NameDropped(fs.core.dirs, next.core.dirs, Resolve(names, path, names.root, false, limits).value))
  {
    hide CoreInv, TreeOk, Gone, Resolve, ResolveCursor, DropName, ChildNames, TakenAway, Finished, NameDropped, Left;
    var names := fs.core.Names();
    var place := Resolve(names, path, names.root, false, limits);
    if EnsureWritable(fs).Ok? && place.Ok? && place.value.inode != names.root && place.value.inode in names.inodes {
      var at := place.value;
      var children := if names.IsDirectory(at.inode) && at.inode in names.dirs then ChildNames(names.dirs[at.inode]) else [];
      if children == [] {
        NoChildren(fs, path, limits);
        InvPieces(fs.core, limits);
        DirectoryIffTable(names, at.inode, limits);
        LeftReflexive(fs, limits);
        RemoveEmptied(fs, fs, path, limits);
        var (core, d) := DropName(fs.core, at);
        FinishedDirs(fs.(core := core), limits);
      }
    }
  }

  lemma NoChildren(fs: Fs, path: text, limits: Limits)
    requires Resolve(fs.core.Names(), path, fs.core.superblock.rootInode, false, limits).Ok?
    ensures |path| <= limits.maxPathBytes && RemoveChildren(fs, path, [], limits) == (fs, Ok(()))
  {
    PathFits(fs.core.Names(), path, limits);
  }
}
