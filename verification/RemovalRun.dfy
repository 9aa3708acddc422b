/** A run in which a recursive removal stops half way, because its path passes through what it removes. */
module RemovalRuns {
  import opened Base
  import opened Inodes
  import opened InodeTables
  import opened Directories
  import opened Paths
  import opened PathTheorems
  import opened PathMeaning
  import opened PathStability
  import opened PathTraces
  import opened Trees
  import opened TreeOps
  import opened FsModel
  import opened FsInvariant
  import opened FsCreate
  import opened FsRemove
  import opened FsRemovePath
  import opened FsRemoveFrame
  import opened FsFits
  import opened FsRuns
  import opened FsRooted
  import opened FsRemoval
  import opened UncleanRuns
  import opened ExampleRuns

  const OTHER: text := [103]
  const SIBLING: text := [SLASH, 102, SLASH, 103]

  /** "/f/f/../../f" */
  const ROUND: text := [SLASH, 102, SLASH, 102, SLASH, 46, 46, SLASH, 46, 46, SLASH, 102]

  /** Limits with room for three directories and the paths below. */
  predicate RoundNames(limits: Limits) {
    && DeepNames(limits) && NeverDecides(limits) && limits.maxSymlinkDepth < TWO32 - 1
    && limits.maxInodes >= 4 && limits.maxDirectoryEntries >= 12
    && limits.maxNameBytes >= 2 && limits.maxPathBytes >= 14 && limits.maxPathComponents >= 6
  }

  lemma SplitNext(path: text, at: nat, start: nat, end: nat, found: Components, name: text, limits: Limits)
    requires at <= start < end <= |path| && (forall i :: at <= i < start ==> path[i] == SLASH)
    requires (forall i :: start <= i < end ==> path[i] != SLASH) && (end < |path| ==> path[end] == SLASH)
    requires path[start..end] == name && |name| <= limits.maxNameBytes && |found| < limits.maxPathComponents
    ensures SplitFrom(path, at, found, limits) == SplitFrom(path, end, found + [name], limits)
  {
    SkipIs(path, at, start);
    NextIs(path, start, end);
  }

  lemma SplitEnd(path: text, found: Components, limits: Limits)
    ensures SplitFrom(path, |path|, found, limits) == Ok(found)
  {
  }

  lemma RoundSplits(limits: Limits)
    requires RoundNames(limits)
    ensures Split(ROUND, limits) == Ok([NAME, NAME, DOTDOT, DOTDOT, NAME])
  {
    hide ExpansionLimit, NeverDecides, SplitFrom;
    assert ROUND[1..2] == NAME && ROUND[3..4] == NAME && ROUND[11..12] == NAME;
    assert ROUND[5..7] == DOTDOT && ROUND[8..10] == DOTDOT;
    SplitNext(ROUND, 0, 1, 2, [], NAME, limits);
    SplitNext(ROUND, 2, 3, 4, [NAME], NAME, limits);
    SplitNext(ROUND, 4, 5, 7, [NAME, NAME], DOTDOT, limits);
    SplitNext(ROUND, 7, 8, 10, [NAME, NAME, DOTDOT], DOTDOT, limits);
    SplitNext(ROUND, 10, 11, 12, [NAME, NAME, DOTDOT, DOTDOT], NAME, limits);
    SplitEnd(ROUND, [NAME, NAME, DOTDOT, DOTDOT, NAME], limits);
    assert [] + [NAME] == [NAME] && [NAME] + [NAME] == [NAME, NAME] && [NAME, NAME] + [DOTDOT] == [NAME, NAME, DOTDOT];
    assert [NAME, NAME, DOTDOT] + [DOTDOT] == [NAME, NAME, DOTDOT, DOTDOT];
    assert [NAME, NAME, DOTDOT, DOTDOT] + [NAME] == [NAME, NAME, DOTDOT, DOTDOT, NAME];
  }

  lemma SiblingSplits(limits: Limits)
    requires RoundNames(limits)
    ensures Split(SIBLING, limits) == Ok([NAME, OTHER])
  {
    hide ExpansionLimit, NeverDecides, SplitFrom;
    SplitNext(SIBLING, 0, 1, 2, [], NAME, limits);
    SplitNext(SIBLING, 2, 3, 4, [NAME], OTHER, limits);
    SplitEnd(SIBLING, [NAME, OTHER], limits);
    assert [] + [NAME] == [NAME] && [NAME] + [OTHER] == [NAME, OTHER];
  }

  lemma SiblingParent(ns: Namespace, a: u64, limits: Limits)
    requires RoundNames(limits) && Nested(ns, a)
    ensures ResolveParent(ns, SIBLING, ns.root, limits) == Ok((a, OTHER))
  {
    SiblingSplits(limits);
    ParentPaths();
    NestedResolves(ns, a, true, limits);
    hide Split, Resolve, ParentPath;
    assert DropTrailingDots([NAME, OTHER]) == [NAME, OTHER];
    assert [NAME, OTHER][..1] == [NAME];
  }

  // ----- The tables -----

  /** "/f" with "f" and "g" in it, in this order. */
  ghost predicate ThreeDeep(core: Core, a: u64, b: u64, c: u64) {
    && core.superblock.rootInode == 1 && a != 0 && a != 1 && b != 1 && a != b && c != 1 && c != a && c != b
    && core.dirs.Keys == {1, a, b, c} && core.dirs[1] == Dots(1, 1) + [NewEntry(a, Directory, NAME)]
    && core.dirs[a] == Dots(a, 1) + [NewEntry(b, Directory, NAME), NewEntry(c, Directory, OTHER)]
    && core.dirs[b] == Dots(b, a) && core.dirs[c] == Dots(c, a)
    && {1, a, b, c} <= core.table.inodes.Keys
    && core.table.inodes[1].inodeType == Directory && core.table.inodes[a].inodeType == Directory
    && core.table.inodes[b].inodeType == Directory && core.table.inodes[c].inodeType == Directory
  }

  lemma OtherAbsent(dirs: Dirs, a: u64, b: u64)
    requires a in dirs && dirs[a] == Dots(a, 1) + [NewEntry(b, Directory, NAME)]
    ensures Directories.Find(dirs, a, OTHER).None?
  {
    var entries := dirs[a];
    assert |entries[0].Key()| == 1 && entries[0].Key()[0] == 46 && |entries[1].Key()| == 2;
    assert entries[2].Key()[0] == 102 && NormalizeName(OTHER)[0] == 103;
    assert forall i :: 0 <= i < |entries| ==> !entries[i].Named(NormalizeName(OTHER));
  }

  lemma ThirdFits(core: Core, a: u64, b: u64, limits: Limits)
    requires RoundNames(limits) && TwoDeep(core, a, b) && |core.table.inodes| == 3
    ensures NodeFits(core, a, OTHER, Directory, [], limits)
  {
    hide Total, ExpansionLimit, NeverDecides;
    OtherAbsent(core.dirs, a, b);
  }

  lemma ThirdMade(core: Core, next: Core, a: u64, b: u64, c: u64)
    requires TwoDeep(core, a, b) && next.superblock.rootInode == core.superblock.rootInode && c !in core.dirs && c !in core.table.inodes
    requires next.table.inodes == core.table.inodes[c := FreshInode(c, Directory, 493)]
    requires var dirs := core.dirs[c := Dots(c, a)];
             next.dirs == dirs[a := dirs[a] + [NewEntry(c, Directory, OTHER)]]
    ensures ThreeDeep(next, a, b, c)
  {
    hide Total, Dots;
    assert Dots(a, 1) + [NewEntry(b, Directory, NAME)] + [NewEntry(c, Directory, OTHER)]
        == Dots(a, 1) + [NewEntry(b, Directory, NAME), NewEntry(c, Directory, OTHER)];
  }

  lemma ThreeMade(options: FormatOptions, limits: Limits) returns (third: Fs, a: u64, b: u64, c: u64)
    requires RoundNames(limits) && Format(UNFORMATTED, options, limits).1.Ok?
    ensures third == FromFormat(options, [CreateDirectory(PATH, 493), CreateDirectory(PATH2, 493), CreateDirectory(SIBLING, 493)], limits)
    ensures Safe(third, limits) && third.core.superblock.blockSize > 0 && ThreeDeep(third.core, a, b, c)
  {
    hide Format, FormattedCore, Safe, Step, Run, TwoDeep, RootedFs, NeverDecides, NodeFits, ResolveParent, ExpansionLimit, Nested, Total, ThreeDeep;
    a, b := TwoMade(options, limits);
    var start := Format(UNFORMATTED, options, limits).0;
    var first := Step(start, CreateDirectory(PATH, 493), limits).0;
    var second := Step(first, CreateDirectory(PATH2, 493), limits).0;
    TwoDeepNested(second.core, a, b);
    TwoDeepRoot(second.core, a, b);
    SiblingParent(second.core.Names(), a, limits);
    ThirdFits(second.core, a, b, limits);
    c := MkdirStep(second, SIBLING, a, OTHER, limits);
    third := Step(second, CreateDirectory(SIBLING, 493), limits).0;
    ThirdMade(second.core, third.core, a, b, c);
    ThreeSteps(start, CreateDirectory(PATH, 493), CreateDirectory(PATH2, 493), CreateDirectory(SIBLING, 493), limits);
  }

  lemma TwoDeepRoot(core: Core, a: u64, b: u64)
    requires TwoDeep(core, a, b)
    ensures core.superblock.rootInode == 1 && a in core.dirs
  {
    hide Total;
  }

  // ----- The lookups of the path -----

  /** What lookups find. */
  ghost predicate Finds(ns: Namespace, a: u64, b: u64) {
    && ns.root == 1 && ns.IsDirectory(1) && ns.IsDirectory(a) && ns.IsDirectory(b) && a != 1
    && Lookup(ns, 1, NAME) == Some(a) && Lookup(ns, a, NAME) == Some(b)
    && ns.Find(b, DOTDOT).Some? && ns.Find(b, DOTDOT).value.inode == a
    && ns.Find(a, DOTDOT).Some? && ns.Find(a, DOTDOT).value.inode == 1
  }

  lemma ThreeFinds(core: Core, a: u64, b: u64, c: u64, limits: Limits)
    requires ThreeDeep(core, a, b, c) && TreeOk(core.Names(), limits)
    ensures Finds(core.Names(), a, b)
  {
    var ns := core.Names();
    EntryFound(core.dirs, 1, 1, NewEntry(a, Directory, NAME));
    NoneInTheDots(a, 1);
    FindAppended(Dots(a, 1), NewEntry(b, Directory, NAME), NormalizeName(NAME));
    var two := Dots(a, 1) + [NewEntry(b, Directory, NAME)];
    assert core.dirs[a] == two + [NewEntry(c, Directory, OTHER)];
    FindAppended(two, NewEntry(c, Directory, OTHER), NormalizeName(NAME));
    TreeParent(ns, limits, a);
    TreeParent(ns, limits, b);
    hide TreeOk, FindIndex;
  }

  /** A turn that looks up a name of a directory, and one that goes up. */
  lemma NameTurn(ns: Namespace, c: Cursor, name: text, rest: Components, id: u64, limits: Limits, budget: nat)
    requires c.pending == [name] + rest && name != [] && name != DOT && name != DOTDOT
    requires Lookup(ns, c.current, name) == Some(id) && ns.IsDirectory(id) && c.processed + 1 <= budget && c.processed + 1 < TWO32
    requires Bounded(c, limits) && limits.maxSymlinkDepth < TWO32 - 1
    ensures var next := Cursor(id, c.current, rest, c.canonical + [name], c.followed, c.processed + 1);
            && Bounded(next, limits)
            && ResolveFrom(ns, c, false, limits, budget) == ResolveFrom(ns, next, false, limits, budget)
            && Trace(ns, c, false, limits, budget) == [Lookedup(c.current, name)] + Trace(ns, next, false, limits, budget)
  {
    hide Directories.Find;
    assert c.pending[0] == name && c.pending[1..] == rest;
    var next := Cursor(id, c.current, rest, c.canonical + [name], c.followed, c.processed + 1);
    assert Advance(ns, c, false, limits, budget) == Ok(next);
  }

  lemma UpTurn(ns: Namespace, c: Cursor, rest: Components, up: u64, limits: Limits, budget: nat)
    requires c.pending == [DOTDOT] + rest && c.canonical != []
    requires ns.Find(c.current, DOTDOT).Some? && ns.Find(c.current, DOTDOT).value.inode == up
    requires c.processed + 1 <= budget && c.processed + 1 < TWO32 && Bounded(c, limits) && limits.maxSymlinkDepth < TWO32 - 1
    ensures var next := Cursor(up, up, rest, c.canonical[..|c.canonical| - 1], c.followed, c.processed + 1);
            && Bounded(next, limits)
            && ResolveFrom(ns, c, false, limits, budget) == ResolveFrom(ns, next, false, limits, budget)
            && Trace(ns, c, false, limits, budget) == [Lookedup(c.current, DOTDOT)] + Trace(ns, next, false, limits, budget)
  {
    hide Directories.Find;
    assert c.pending[0] == DOTDOT && c.pending[1..] == rest;
    var next := Cursor(up, up, rest, c.canonical[..|c.canonical| - 1], c.followed, c.processed + 1);
    assert Advance(ns, c, false, limits, budget) == Ok(next);
  }

  lemma Budget(limits: Limits)
    requires RoundNames(limits)
    ensures ExpansionLimit(limits) >= 6
  {
    if LimitSuffices(limits) {
      hide ExpansionLimit;
      assert MostComponents(limits) >= 6;
      MulMonotone(MostComponents(limits), 1, limits.maxSymlinkDepth + 1);
    }
  }

  /** The way back, up twice and down again. */
  lemma RoundBack(ns: Namespace, a: u64, b: u64, c: Cursor, limits: Limits, budget: nat)
    requires Finds(ns, a, b) && limits.maxSymlinkDepth < TWO32 - 1 && Bounded(c, limits) && budget >= 6
    requires c == Cursor(b, a, [DOTDOT, DOTDOT, NAME], [NAME, NAME], 0, 2)
    ensures ResolveFrom(ns, c, false, limits, budget) == Ok(Cursor(a, 1, [], [NAME], 0, 5))
  {
    hide Bounded, ResolveFrom, Trace, Lookup, Directories.Find;
    var c3 := Cursor(a, a, [DOTDOT, NAME], [NAME], 0, 3);
    var c4 := Cursor(1, 1, [NAME], [], 0, 4);
    assert [DOTDOT] + [DOTDOT, NAME] == c.pending && [NAME, NAME][..1] == [NAME];
    UpTurn(ns, c, [DOTDOT, NAME], a, limits, budget);
    assert [DOTDOT] + [NAME] == c3.pending && [NAME][..0] == [];
    UpTurn(ns, c3, [NAME], 1, limits, budget);
    assert [NAME] + [] == c4.pending && [] + [NAME] == [NAME];
    NameTurn(ns, c4, NAME, [], a, limits, budget);
    RoundEnd(ns, Cursor(a, 1, [], [NAME], 0, 5), limits, budget);
  }

  lemma RoundWay(ns: Namespace, a: u64, b: u64, c: Cursor, limits: Limits, budget: nat)
    requires Finds(ns, a, b) && limits.maxSymlinkDepth < TWO32 - 1 && Bounded(c, limits) && budget >= 6
    requires c == Cursor(1, 1, [NAME, NAME, DOTDOT, DOTDOT, NAME], [], 0, 0)
    ensures ResolveFrom(ns, c, false, limits, budget) == Ok(Cursor(a, 1, [], [NAME], 0, 5))
    ensures Lookedup(a, NAME) in Trace(ns, c, false, limits, budget)
  {
    hide Bounded, ResolveFrom, Trace, Lookup, Directories.Find;
    var c1 := Cursor(a, 1, [NAME, DOTDOT, DOTDOT, NAME], [NAME], 0, 1);
    assert [NAME] + [NAME, DOTDOT, DOTDOT, NAME] == c.pending && [] + [NAME] == [NAME];
    NameTurn(ns, c, NAME, [NAME, DOTDOT, DOTDOT, NAME], a, limits, budget);
    assert [NAME] + [DOTDOT, DOTDOT, NAME] == c1.pending && [NAME] + [NAME] == [NAME, NAME];
    NameTurn(ns, c1, NAME, [DOTDOT, DOTDOT, NAME], b, limits, budget);
    RoundBack(ns, a, b, Cursor(b, a, [DOTDOT, DOTDOT, NAME], [NAME, NAME], 0, 2), limits, budget);
  }

  /** The path comes back to "/f", by way of "/f/f". */
  lemma RoundLeads(ns: Namespace, a: u64, b: u64, limits: Limits)
    requires RoundNames(limits) && Finds(ns, a, b)
    ensures Split(ROUND, limits).Ok? && Lookedup(a, NAME) in PathTrace(ns, ROUND, limits)
    ensures var r := Resolve(ns, ROUND, ns.root, false, limits);
            r.Ok? && r.value.inode == a && r.value.parent == 1 && r.value.name == NAME
  {
    RoundSplits(limits);
    Budget(limits);
    hide NeverDecides, Split, ResolveFrom, Trace, Lookup, ExpansionLimit, Directories.Find, Bounded, Render;
    RoundStart(ns, limits);
    RoundWay(ns, a, b, Start(ns, ROUND, ns.root, [NAME, NAME, DOTDOT, DOTDOT, NAME]), limits, ExpansionLimit(limits));
  }

  lemma RoundStart(ns: Namespace, limits: Limits)
    ensures var c := Start(ns, ROUND, ns.root, [NAME, NAME, DOTDOT, DOTDOT, NAME]);
            c == Cursor(ns.root, ns.root, [NAME, NAME, DOTDOT, DOTDOT, NAME], [], 0, 0)
            && (limits.maxSymlinkDepth < TWO32 - 1 ==> Bounded(c, limits))
  {
  }

  lemma RoundEnd(ns: Namespace, c: Cursor, limits: Limits, budget: nat)
    requires c.pending == [] && Bounded(c, limits) && limits.maxSymlinkDepth < TWO32 - 1
    ensures ResolveFrom(ns, c, false, limits, budget) == Ok(c)
  {
  }

  // ----- The run -----

  lemma ThreeSpelled(core: Core, a: u64, b: u64, c: u64, below: Components)
    requires ThreeDeep(core, a, b, c) && Spelled(core.Names(), a, below)
    ensures below == [] || below == [NAME] || below == [OTHER]
  {
    var ns := core.Names();
    if below != [] {
      var x: u64 :| HasName(ns, a, below[0], x) && Spelled(ns, x, below[1..]);
      var i: nat :| HasEntry(core.dirs[a], i, below[0], x);
      assert core.dirs[a][2] == NewEntry(b, Directory, NAME) && core.dirs[a][3] == NewEntry(c, Directory, OTHER);
      assert i == 2 || i == 3;
      assert x == b || x == c;
      assert Vacant(core.dirs[x]);
      VacantSpelled(ns, x, below[1..]);
      assert below == [below[0]];
    }
  }

  /** Every path below is within the limits. */
  lemma RoundFits(core: Core, a: u64, b: u64, c: u64, limits: Limits)
    requires RoundNames(limits) && ThreeDeep(core, a, b, c)
    ensures EveryPathFits(core.Names(), ROUND, a, limits)
  {
    hide ThreeDeep, Spelled, NeverDecides, ExpansionLimit;
    RoundSplits(limits);
    SplitChildIs(ROUND, NAME, limits);
    SplitChildIs(ROUND, OTHER, limits);
    assert |ChildPath(ROUND, NAME)| == 14 && |ChildPath(ROUND, OTHER)| == 14;
    hide Split, ChildPath;
    forall below: Components | Spelled(core.Names(), a, below) ensures Split(PathBelow(ROUND, below), limits).Ok? {
      ThreeSpelled(core, a, b, c, below);
      assert [NAME][1..] == [] && [OTHER][1..] == [];
    }
  }

  lemma FirstIsNotLast(core: Core, a: u64, b: u64, c: u64)
    requires ThreeDeep(core, a, b, c)
    ensures a in core.dirs && !IsLast(core.dirs[a], NAME)
  {
    var entries := core.dirs[a];
    assert entries[3] == NewEntry(c, Directory, OTHER);
    assert NormalizeName(NAME)[0] == 102 && entries[3].Key()[0] == 103;
    assert !entries[3].Named(NormalizeName(NAME)) && !entries[3].deleted;
  }

  /** Format, make "/f", "/f/f" and "/f/g". The path "/f/f/../../f" leads to "/f" by a name, and every path
      below is within the limits; but it passes through "/f/f", which goes first. The recursive removal
      fails. */
  lemma RoundTripRefused(options: FormatOptions, limits: Limits)
    requires RoundNames(limits) && Format(UNFORMATTED, options, limits).1.Ok?
    ensures var fs := FromFormat(options, [CreateDirectory(PATH, 493), CreateDirectory(PATH2, 493), CreateDirectory(SIBLING, 493)], limits);
            var ns := fs.core.Names();
            && EnsureWritable(fs).Ok? && Named(ns, ROUND, limits)
            && EveryPathFits(ns, ROUND, Resolve(ns, ROUND, ns.root, false, limits).value.inode, limits)
            && RemovePath(fs, ROUND, true, limits).1.Err?
  {
    hide Format, Safe, Run, NeverDecides, ThreeDeep, ExpansionLimit, EveryPathFits, LastOnly, Resolve, RemovePath, CoreInv, TreeOk, LinksOk, Directories.Find;
    var fs, a, b, c := ThreeMade(options, limits);
    var ns := fs.core.Names();
    SafeParts(fs, limits);
    SafeTree(fs, limits);
    ThreeFinds(fs.core, a, b, c, limits);
    RoundLeads(ns, a, b, limits);
    RoundFits(fs.core, a, b, c, limits);
    RemovePathIff(fs, ROUND, limits);
    NotLastOnly(fs.core, a, b, c, limits);
  }

  lemma NotLastOnly(core: Core, a: u64, b: u64, c: u64, limits: Limits)
    requires ThreeDeep(core, a, b, c)
    requires Split(ROUND, limits).Ok? && Lookedup(a, NAME) in PathTrace(core.Names(), ROUND, limits)
    ensures !LastOnly(core.Names(), ROUND, a, limits)
  {
    hide Split, PathTrace, ThreeDeep, IsLast, Below;
    FirstIsNotLast(core, a, b, c);
    BelowTop(core.dirs, a);
    assert NAME != DOTDOT;
  }
}
