/** The lookups a resolution makes, and what becomes of them when names are removed. */
module PathTraces {
  import opened Base
  import opened Inodes
  import opened Directories
  import opened Paths
  import opened PathTheorems
  import opened Trees
  import opened PathStability
  import opened FsRemoveFrame
  import opened FsRooted

  /** One lookup: the directory and the component, a name or "..". */
  datatype Lookedup = Lookedup(directory: u64, name: text)

  /** The lookup of the next turn, if it makes one. */
  function Asked(c: Cursor): seq<Lookedup>
    requires c.pending != []
  {
    if c.pending[0] == [] || c.pending[0] == DOT then [] else [Lookedup(c.current, c.pending[0])]
  }

  /** The lookups of a resolution, those in the targets of links included, in their order. */
  function Trace(ns: Namespace, c: Cursor, follow: bool, limits: Limits, budget: nat): seq<Lookedup>
    requires Bounded(c, limits)
    requires limits.maxSymlinkDepth == TWO32 - 1 ==> budget == 0
    decreases limits.maxSymlinkDepth - c.followed, |c.pending|
  {
    if c.pending == [] then []
    else
      var next := Advance(ns, c, follow, limits, budget);
      if next.Err? then []
      else
        AdvanceProgress(ns, c, follow, limits, budget);
        Asked(c) + Trace(ns, next.value, follow, limits, budget)
  }

  function PathTrace(ns: Namespace, path: text, limits: Limits): seq<Lookedup>
    requires Split(path, limits).Ok?
  {
    Trace(ns, Start(ns, path, ns.root, Split(path, limits).value), false, limits, ExpansionLimit(limits))
  }

  // ----- Names removed -----

  /** Every one of the lookups still finds something. */
  ghost predicate Intact(ns: Namespace, trace: seq<Lookedup>) {
    forall s :: s in trace ==> ns.Find(s.directory, s.name).Some?
  }

  lemma AdvanceAsks(ns: Namespace, c: Cursor, follow: bool, limits: Limits, budget: nat)
    requires c.pending != [] && Advance(ns, c, follow, limits, budget).Ok?
    ensures Intact(ns, Asked(c))
  {
    hide Directories.Find, Split;
  }

  lemma AdvanceIntact(before: Namespace, after: Namespace, c: Cursor, follow: bool, limits: Limits, budget: nat)
    requires Shrunk(before, after) && TreeOk(before, limits) && TreeOk(after, limits) && c.pending != []
    requires Advance(before, c, follow, limits, budget).Ok?
    ensures Advance(after, c, follow, limits, budget).Ok? <==> Intact(after, Asked(c))
    ensures Advance(after, c, follow, limits, budget).Ok? ==>
              Advance(after, c, follow, limits, budget) == Advance(before, c, follow, limits, budget)
  {
    if Advance(after, c, follow, limits, budget).Ok? {
      ShrunkAdvance(before, after, c, follow, limits, budget);
      hide TreeOk, Shrunk, Advance;
      AdvanceAsks(after, c, follow, limits, budget);
    } else if Intact(after, Asked(c)) && Asked(c) != [] {
      hide TreeOk, Shrunk, Directories.Find, Split;
      var name := c.pending[0];
      assert Lookedup(c.current, name) in Asked(c);
      ShrunkFind(before, after, c.current, name, limits);
      if name != DOTDOT {
        FoundKept(before, after, c.current, name, limits);
      }
    }
  }

  lemma FoundKept(before: Namespace, after: Namespace, d: u64, name: text, limits: Limits)
    requires Shrunk(before, after) && TreeOk(after, limits) && after.Find(d, name).Some? && name != DOT && name != DOTDOT
    ensures after.IsDirectory(d) && after.Find(d, name).value.inode in after.inodes
    ensures var id := after.Find(d, name).value.inode;
            id in before.inodes && after.inodes[id].inodeType == before.inodes[id].inodeType
            && after.inodes[id].symlinkTarget == before.inodes[id].symlinkTarget
  {
    TreeRoot(after, limits);
    FindIsHere(after.dirs, d, name);
    hide TreeOk, Directories.Find;
    EntryIs(after, d, name, limits);
    var id := after.Find(d, name).value.inode;
    assert SameFile(before.inodes[id], after.inodes[id]);
  }

  lemma FindIsHere(dirs: Dirs, d: u64, name: text)
    ensures Directories.Find(dirs, d, name).Some? ==> d in dirs
  {
  }

  /** A path that resolved resolves after removals exactly if every lookup it makes still finds something;
      then it makes the same lookups and ends at the same place. */
  lemma {:induction false} TraceIntact(before: Namespace, after: Namespace, c: Cursor, follow: bool, limits: Limits, budget: nat)
    requires Bounded(c, limits) && (limits.maxSymlinkDepth == TWO32 - 1 ==> budget == 0)
    requires Shrunk(before, after) && TreeOk(before, limits) && TreeOk(after, limits)
    requires ResolveFrom(before, c, follow, limits, budget).Ok?
    ensures ResolveFrom(after, c, follow, limits, budget).Ok? <==> Intact(after, Trace(before, c, follow, limits, budget))
    ensures ResolveFrom(after, c, follow, limits, budget).Ok? ==>
              && ResolveFrom(after, c, follow, limits, budget) == ResolveFrom(before, c, follow, limits, budget)
              && Trace(after, c, follow, limits, budget) == Trace(before, c, follow, limits, budget)
    decreases limits.maxSymlinkDepth - c.followed, |c.pending|
  {
    hide TreeOk, Shrunk, Advance, Bounded, Namespace.Find, Asked;
    if c.pending != [] {
      AdvanceIntact(before, after, c, follow, limits, budget);
      AdvanceProgress(before, c, follow, limits, budget);
      var next := Advance(before, c, follow, limits, budget).value;
      TraceIntact(before, after, next, follow, limits, budget);
      assert Trace(before, c, follow, limits, budget) == Asked(c) + Trace(before, next, follow, limits, budget);
    }
  }

  /** With one more component at the end there is one more lookup. */
  lemma {:induction false} TraceExtended(ns: Namespace, c: Cursor, name: text, limits: Limits, budget: nat)
    requires Bounded(c, limits) && (limits.maxSymlinkDepth == TWO32 - 1 ==> budget == 0)
    requires ResolveFrom(ns, c, false, limits, budget).Ok? && ResolveFrom(ns, Extend(c, name), false, limits, budget).Ok?
    requires ns.IsDirectory(ResolveFrom(ns, c, false, limits, budget).value.current) && name != [] && name != DOT
    ensures Trace(ns, Extend(c, name), false, limits, budget) ==
            Trace(ns, c, false, limits, budget) + [Lookedup(ResolveFrom(ns, c, false, limits, budget).value.current, name)]
    decreases limits.maxSymlinkDepth - c.followed, |c.pending|
  {
    if c.pending == [] {
      LastTrace(ns, c, name, limits, budget);
    } else {
      var next := Advance(ns, c, false, limits, budget).value;
      AdvanceProgress(ns, c, false, limits, budget);
      if next.pending == [] {
        assert ResolveFrom(ns, next, false, limits, budget) == Ok(next);
      }
      AdvanceExtended(ns, c, name, limits, budget);
      AskedExtended(c, name);
      hide Advance, Asked, Bounded;
      assert Bounded(next, limits);
      TraceExtended(ns, next, name, limits, budget);
    }
  }

  lemma AskedExtended(c: Cursor, name: text)
    requires c.pending != []
    ensures Extend(c, name).pending != [] && Asked(Extend(c, name)) == Asked(c)
  {
    assert (c.pending + [name])[0] == c.pending[0];
  }

  /** One turn of the trace. */
  lemma TraceStep(ns: Namespace, c: Cursor, follow: bool, limits: Limits, budget: nat)
    requires Bounded(c, limits) && (limits.maxSymlinkDepth == TWO32 - 1 ==> budget == 0)
    requires c.pending != [] && Advance(ns, c, follow, limits, budget).Ok?
    ensures var next := Advance(ns, c, follow, limits, budget).value;
            && Bounded(next, limits) && Trace(ns, c, follow, limits, budget) == Asked(c) + Trace(ns, next, follow, limits, budget)
            && ResolveFrom(ns, c, follow, limits, budget) == ResolveFrom(ns, next, follow, limits, budget)
  {
    hide Advance, Asked, Bounded;
    AdvanceProgress(ns, c, follow, limits, budget);
  }

  lemma TraceNone(ns: Namespace, c: Cursor, follow: bool, limits: Limits, budget: nat)
    requires Bounded(c, limits) && (limits.maxSymlinkDepth == TWO32 - 1 ==> budget == 0) && c.pending == []
    ensures Trace(ns, c, follow, limits, budget) == []
  {
  }

  lemma LastTrace(ns: Namespace, c: Cursor, name: text, limits: Limits, budget: nat)
    requires Bounded(c, limits) && (limits.maxSymlinkDepth == TWO32 - 1 ==> budget == 0)
    requires c.pending == [] && name != [] && name != DOT && ns.IsDirectory(c.current)
    requires ResolveFrom(ns, Extend(c, name), false, limits, budget).Ok?
    ensures Trace(ns, Extend(c, name), false, limits, budget) == [Lookedup(c.current, name)]
  {
    hide Trace, Advance, Namespace.IsDirectory;
    var longer := Extend(c, name);
    assert longer.pending == [name];
    assert Advance(ns, longer, false, limits, budget).Ok?;
    hide ResolveFrom, Bounded;
    TraceStep(ns, longer, false, limits, budget);
    LastAdvance(ns, longer, name, limits, budget);
    TraceNone(ns, Advance(ns, longer, false, limits, budget).value, false, limits, budget);
  }

  lemma LastAdvance(ns: Namespace, c: Cursor, name: text, limits: Limits, budget: nat)
    requires c.pending == [name] && Advance(ns, c, false, limits, budget).Ok?
    ensures Advance(ns, c, false, limits, budget).value.pending == []
  {
    hide Directories.Find, Split;
    assert [name][1..] == [];
  }

  // ----- Getting below a directory -----

  lemma {:induction false} RootNotBelow(ns: Namespace, x: u64, n: nat, limits: Limits)
    requires TreeOk(ns, limits) && x != ns.root
    ensures !BelowIn(ns.dirs, x, ns.root, n)
    decreases n
  {
    TreeRoot(ns, limits);
    if n > 0 {
      hide TreeOk;
      RootNotBelow(ns, x, n - 1, limits);
    }
  }

  lemma RootOutside(ns: Namespace, x: u64, limits: Limits)
    requires TreeOk(ns, limits) && x != ns.root
    ensures !Below(ns.dirs, x, ns.root)
  {
    hide TreeOk, BelowIn;
    if Below(ns.dirs, x, ns.root) {
      var n: nat :| BelowIn(ns.dirs, x, ns.root, n);
      RootNotBelow(ns, x, n, limits);
    }
  }

  /** One gets to or below a directory only by its name in its parent. */
  lemma AdvanceEnters(ns: Namespace, c: Cursor, follow: bool, limits: Limits, budget: nat, x: u64)
    requires TreeOk(ns, limits) && x in ns.dirs && x != ns.root && c.pending != []
    requires Advance(ns, c, follow, limits, budget).Ok? && !Below(ns.dirs, x, c.current)
    requires Below(ns.dirs, x, Advance(ns, c, follow, limits, budget).value.current)
    ensures |ns.dirs[x]| >= 2 && Asked(c) == [Lookedup(Up(ns.dirs, x), c.pending[0])]
    ensures c.pending[0] != DOTDOT && c.pending[0] != DOT
    ensures ns.Find(Up(ns.dirs, x), c.pending[0]).Some? && ns.Find(Up(ns.dirs, x), c.pending[0]).value.inode == x
  {
    hide TreeOk, Below, Directories.Find, Split;
    var name := c.pending[0];
    var next := Advance(ns, c, follow, limits, budget).value.current;
    RootOutside(ns, x, limits);
    if name == DOTDOT {
      FindIsHere(ns.dirs, c.current, DOTDOT);
      TreeParent(ns, limits, c.current);
      BelowUp(ns.dirs, x, c.current);
    } else {
      assert name != [] && name != DOT;
      FindIsHere(ns.dirs, c.current, name);
      EntryIs(ns, c.current, name, limits);
      if next != x {
        BelowDown(ns.dirs, x, next);
      }
    }
  }

  /** A lookup in or below a directory comes after the one of its name. */
  lemma {:induction false} TraceEnters(ns: Namespace, c: Cursor, follow: bool, limits: Limits, budget: nat, x: u64, s: Lookedup) returns (e: Lookedup)
    requires Bounded(c, limits) && (limits.maxSymlinkDepth == TWO32 - 1 ==> budget == 0)
    requires TreeOk(ns, limits) && x in ns.dirs && x != ns.root && !Below(ns.dirs, x, c.current)
    requires s in Trace(ns, c, follow, limits, budget) && Below(ns.dirs, x, s.directory)
    ensures e in Trace(ns, c, follow, limits, budget) && |ns.dirs[x]| >= 2 && e.directory == Up(ns.dirs, x)
    ensures e.name != DOTDOT && e.name != DOT && ns.Find(e.directory, e.name).Some? && ns.Find(e.directory, e.name).value.inode == x
    decreases limits.maxSymlinkDepth - c.followed, |c.pending|
  {
    hide TreeOk, Below, Advance, Bounded, Namespace.Find;
    AdvanceProgress(ns, c, follow, limits, budget);
    var next := Advance(ns, c, follow, limits, budget).value;
    if Below(ns.dirs, x, next.current) {
      AdvanceEnters(ns, c, follow, limits, budget, x);
      e := Asked(c)[0];
    } else {
      assert s in Trace(ns, next, follow, limits, budget);
      e := TraceEnters(ns, next, follow, limits, budget, x, s);
    }
  }
}
