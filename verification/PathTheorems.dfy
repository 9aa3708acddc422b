/** What a resolved path means on a consistent namespace, and why the loop never runs out. */
module PathTheorems {
  import opened Base
  import opened Inodes
  import opened InodeTables
  import opened Directories
  import opened Paths

  // ----- The expansion budget -----

  /** The most components a path can have: each takes a byte, and a slash from the one before. */
  function MostComponents(limits: Limits): nat {
    Min(limits.maxPathComponents, (limits.maxPathBytes + 1) / 2)
  }

  lemma {:induction false} SplitFromCount(path: text, position: nat, found: Components, limits: Limits)
    requires position <= |path| && SplitFrom(path, position, found, limits).Ok?
    ensures 2 * |SplitFrom(path, position, found, limits).value| <=
            2 * |found| + |path| - position + (if position < |path| && path[position] != SLASH then 1 else 0)
    decreases |path| - position
  {
    var start := SkipSlashes(path, position);
    if start < |path| {
      var end := NextSlash(path, start);
      SplitFromCount(path, end, found + [path[start..end]], limits);
    }
  }

  lemma SplitCount(path: text, limits: Limits)
    requires Split(path, limits).Ok?
    ensures |Split(path, limits).value| <= MostComponents(limits)
  {
    SplitGood(path, limits);
    SplitFromCount(path, 0, [], limits);
  }

  /** The expansion limit admits as many components as path and links can bring along. The product the
      code computes for it does, unless it wraps. */
  predicate LimitSuffices(limits: Limits) {
    MostComponents(limits) * (limits.maxSymlinkDepth + 1) <= ExpansionLimit(limits)
  }

  lemma UnwrappedSuffices(limits: Limits)
    requires limits.maxPathComponents * (limits.maxSymlinkDepth + 1) < TWO32 && limits.maxSymlinkDepth < TWO32 - 1
    ensures LimitSuffices(limits)
  {
    var links, most, all := limits.maxSymlinkDepth + 1, MostComponents(limits), limits.maxPathComponents;
    assert most <= all;
    hide MostComponents, Wrap32;
    MulMonotone(all, 0, links);
    SmallWrap(links);
    SmallWrap(all * links);
    MulMonotone(links, most, all);
  }

  lemma SmallWrap(n: nat)
    requires n < TWO32
    ensures Wrap32(n) == n
  {
  }

  /** Every component taken so far came from the path or from a followed link. */
  predicate WithinBudget(c: Cursor, limits: Limits) {
    && c.processed + |c.pending| <= MostComponents(limits) * (c.followed + 1)
    && c.followed <= limits.maxSymlinkDepth
    && LimitSuffices(limits)
  }

  lemma BudgetBound(c: Cursor, limits: Limits)
    requires WithinBudget(c, limits)
    ensures c.pending != [] ==> c.processed + 1 <= ExpansionLimit(limits)
  {
    MulMonotone(MostComponents(limits), c.followed + 1, limits.maxSymlinkDepth + 1);
  }

  /** What a successful turn does to the counters. */
  lemma AdvanceCounts(ns: Namespace, c: Cursor, follow: bool, limits: Limits, budget: nat)
    requires c.pending != [] && Advance(ns, c, follow, limits, budget).Ok?
    requires c.followed <= limits.maxSymlinkDepth < TWO32 - 1
    ensures var next := Advance(ns, c, follow, limits, budget).value;
            && next.processed == Wrap32(c.processed + 1)
            && ((next.followed == c.followed && |next.pending| == |c.pending| - 1)
                || (next.followed == c.followed + 1 <= limits.maxSymlinkDepth
                    && |next.pending| <= |c.pending| - 1 + MostComponents(limits)))
  {
    hide Namespace.Find, Split, MostComponents;
    var r := Advance(ns, c, follow, limits, budget);
    if r.value.followed != c.followed {
      var id := ns.Find(c.current, c.pending[0]).value.inode;
      SplitCount(ns.inodes[id].symlinkTarget, limits);
    }
  }

  lemma SameAnswer(ns: Namespace, c: Cursor, follow: bool, limits: Limits, tight: nat, loose: nat)
    requires c.pending != [] && Wrap32(c.processed + 1) <= tight && Wrap32(c.processed + 1) <= loose
    ensures Advance(ns, c, follow, limits, tight) == Advance(ns, c, follow, limits, loose)
  {
    hide GoUp, Descend;
  }

  lemma BudgetStep(c: Cursor, next: Cursor, limits: Limits)
    requires WithinBudget(c, limits) && c.processed < TWO32 - 1 && next.processed == c.processed + 1
    requires (next.followed == c.followed && |next.pending| == |c.pending| - 1)
             || (next.followed == c.followed + 1 <= limits.maxSymlinkDepth
                 && |next.pending| <= |c.pending| - 1 + MostComponents(limits))
    ensures WithinBudget(next, limits)
  {
    hide MostComponents, LimitSuffices;
    Distribute(MostComponents(limits), c.followed + 1);
  }

  lemma AdvanceWithinBudget(ns: Namespace, c: Cursor, follow: bool, limits: Limits)
    requires c.pending != [] && WithinBudget(c, limits) && limits.maxSymlinkDepth < TWO32 - 1
    ensures Advance(ns, c, follow, limits, ExpansionLimit(limits)) == Advance(ns, c, follow, limits, TWO32)
    ensures Advance(ns, c, follow, limits, TWO32).Ok? ==> WithinBudget(Advance(ns, c, follow, limits, TWO32).value, limits)
  {
    BudgetBound(c, limits);
    assert c.processed + 1 <= ExpansionLimit(limits);
    hide Advance, ExpansionLimit, WithinBudget;
    SameAnswer(ns, c, follow, limits, ExpansionLimit(limits), TWO32);
    if Advance(ns, c, follow, limits, TWO32).Ok? {
      AdvanceCounts(ns, c, follow, limits, TWO32);
      BudgetStep(c, Advance(ns, c, follow, limits, TWO32).value, limits);
    }
  }

  lemma Distribute(a: int, b: int)
    ensures a * (b + 1) == a * b + a
  {
  }

  lemma {:induction false} ResolveFromWithinBudget(ns: Namespace, c: Cursor, follow: bool, limits: Limits)
    requires Bounded(c, limits) && limits.maxSymlinkDepth < TWO32 - 1
    requires WithinBudget(c, limits)
    ensures ResolveFrom(ns, c, follow, limits, ExpansionLimit(limits)) == ResolveFrom(ns, c, follow, limits, TWO32)
    decreases limits.maxSymlinkDepth - c.followed, |c.pending|
  {
    hide WithinBudget, Advance, ExpansionLimit, Bounded;
    if c.pending != [] {
      AdvanceWithinBudget(ns, c, follow, limits);
      var next := Advance(ns, c, follow, limits, TWO32);
      if next.Ok? {
        AdvanceProgress(ns, c, follow, limits, TWO32);
        ResolveFromWithinBudget(ns, next.value, follow, limits);
      }
    }
  }

  /** The limit never decides: it suffices, or no 32-bit counter exceeds it. */
  predicate NeverDecides(limits: Limits) {
    LimitSuffices(limits) || ExpansionLimit(limits) == TWO32 - 1
  }

  lemma {:induction false} LargestLimit(ns: Namespace, c: Cursor, follow: bool, limits: Limits)
    requires Bounded(c, limits) && limits.maxSymlinkDepth < TWO32 - 1
    ensures ResolveFrom(ns, c, follow, limits, TWO32 - 1) == ResolveFrom(ns, c, follow, limits, TWO32)
    decreases limits.maxSymlinkDepth - c.followed, |c.pending|
  {
    hide Advance, Bounded;
    if c.pending != [] {
      SameAnswer(ns, c, follow, limits, TWO32 - 1, TWO32);
      var next := Advance(ns, c, follow, limits, TWO32);
      if next.Ok? {
        AdvanceProgress(ns, c, follow, limits, TWO32);
        LargestLimit(ns, next.value, follow, limits);
      }
    }
  }

  /** Where the expansion limit suffices, as it does where the 32-bit product does not wrap, it never
      decides a resolution: the loop gives the same answer with a budget no 32-bit counter can exceed. */
  lemma ExpansionLimitUnreachable(ns: Namespace, path: text, working: u64, follow: bool, limits: Limits)
    requires NeverDecides(limits) && limits.maxSymlinkDepth < TWO32 - 1
    requires Split(path, limits).Ok?
    ensures ResolveCursor(ns, path, working, follow, limits) ==
            ResolveFrom(ns, Start(ns, path, working, Split(path, limits).value), follow, limits, TWO32)
  {
    SplitCount(path, limits);
    var c := Start(ns, path, working, Split(path, limits).value);
    if LimitSuffices(limits) {
      ResolveFromWithinBudget(ns, c, follow, limits);
    } else {
      LargestLimit(ns, c, follow, limits);
    }
  }

  /** Where the product is a multiple of 2^32 the limit wraps to zero, and refuses every path that has
      a component. */
  lemma WrappedLimitRefuses(ns: Namespace, path: text, working: u64, follow: bool, limits: Limits)
    requires (limits.maxPathComponents * (limits.maxSymlinkDepth + 1)) % TWO32 == 0
    requires Split(path, limits).Ok? && Split(path, limits).value != []
    ensures Resolve(ns, path, working, follow, limits) == Err(ResourceLimit)
  {
    assert ExpansionLimit(limits) == 0;
    var c := Start(ns, path, working, Split(path, limits).value);
    assert Advance(ns, c, follow, limits, 0) == Err(ResourceLimit);
  }

  // ----- Where it is too small -----

  const LINK: text := [108]

  /** "." again and again, and then the link. */
  function Turns(count: nat): Components {
    seq(count, i requires 0 <= i < count => if i == count - 1 then LINK else DOT)
  }

  /** The same as a path. */
  function TurnsPath(count: nat): text
    requires count > 0
  {
    seq(2 * count - 1, i requires 0 <= i < 2 * count - 1 => if i % 2 == 1 then SLASH else if i == 2 * count - 2 then 108 else 46)
  }

  /** Where the `k`-th component starts to be looked for. */
  function TurnAt(k: nat): nat {
    if k == 0 then 0 else 2 * k - 1
  }

  lemma TurnBytes(count: nat, k: nat)
    requires k < count
    ensures var path := TurnsPath(count);
            && TurnAt(k) <= 2 * k < |path| && 2 * k <= TurnAt(k) + 1 && path[2 * k] != SLASH
            && (TurnAt(k) < 2 * k ==> path[TurnAt(k)] == SLASH)
            && (2 * k + 1 < |path| ==> path[2 * k + 1] == SLASH)
            && TurnAt(k + 1) == 2 * k + 1 <= |path| && [path[2 * k]] == Turns(count)[k]
            && |Turns(count)| == count && |path| == 2 * count - 1
  {
    assert (2 * k) % 2 == 0 && (2 * k + 1) % 2 == 1 && (k > 0 ==> (2 * k - 1) % 2 == 1);
  }

  lemma {:induction false} TurnsSplitFrom(count: nat, k: nat, limits: Limits)
    requires 0 < count <= limits.maxPathComponents && limits.maxNameBytes >= 1 && k <= count
    ensures TurnAt(k) <= |TurnsPath(count)| && k <= |Turns(count)|
    ensures SplitFrom(TurnsPath(count), TurnAt(k), Turns(count)[..k], limits) == Ok(Turns(count))
    decreases count - k
  {
    var path, turns := TurnsPath(count), Turns(count);
    if k == count {
      assert turns[..k] == turns;
    } else {
      TurnBytes(count, k);
      hide TurnsPath, Turns, TurnAt;
      SkipOne(path, TurnAt(k), 2 * k);
      NextOne(path, 2 * k);
      assert path[2 * k..2 * k + 1] == [path[2 * k]];
      assert turns[..k] + [turns[k]] == turns[..k + 1];
      TurnsSplitFrom(count, k + 1, limits);
    }
  }

  lemma SkipOne(path: text, position: nat, at: nat)
    requires position <= at < |path| && at <= position + 1 && path[at] != SLASH && (position < at ==> path[position] == SLASH)
    ensures SkipSlashes(path, position) == at
  {
  }

  lemma NextOne(path: text, at: nat)
    requires at < |path| && path[at] != SLASH && (at + 1 < |path| ==> path[at + 1] == SLASH)
    ensures NextSlash(path, at) == at + 1
  {
  }

  /** A root that holds one symbolic link, whose target comes back to it. */
  function Circle(count: nat): Namespace
    requires 0 < count < TWO32
  {
    Namespace(map[1 := FreshInode(1, Directory, 493),
                  2 := FreshInode(2, SymbolicLink, 511).(symlinkTarget := TurnsPath(count))],
              map[1 := Dots(1, 1) + [DirectoryEntry(2, SymbolicLink, LINK, AlignedDirectoryLength(1), false)]], 1)
  }

  lemma CircleFinds(count: nat)
    requires 0 < count < TWO32
    ensures Circle(count).IsDirectory(1)
    ensures Circle(count).Find(1, LINK).Some? && Circle(count).Find(1, LINK).value.inode == 2
  {
    var entries := Dots(1, 1);
    var e := DirectoryEntry(2, SymbolicLink, LINK, AlignedDirectoryLength(1), false);
    assert NormalizeName(LINK)[0] == 108;
    assert |entries[1].Key()| == 2 && entries[0].Key()[0] == 46;
    assert !entries[0].Named(NormalizeName(LINK)) && !entries[1].Named(NormalizeName(LINK));
    FindAppended(entries, e, NormalizeName(LINK));
  }

  /** The cursor before its next component, `followed` times round the circle. */
  predicate OnCircle(c: Cursor, count: nat, k: nat) {
    c.current == 1 && k < count && c.pending == Turns(count)[k..]
  }

  lemma CircleAdvance(c: Cursor, count: nat, k: nat, limits: Limits, budget: nat)
    requires 0 < count == MostComponents(limits) && count < TWO32 && limits.maxNameBytes >= 1 && limits.maxSymlinkDepth < TWO32 - 1
    requires OnCircle(c, count, k) && c.followed <= limits.maxSymlinkDepth
    ensures var next := Advance(Circle(count), c, true, limits, budget);
            if Wrap32(c.processed + 1) > budget then next == Err(ResourceLimit)
            else if k < count - 1 then
              && next.Ok? && OnCircle(next.value, count, k + 1)
              && next.value.followed == c.followed && next.value.processed == Wrap32(c.processed + 1)
            else if c.followed == limits.maxSymlinkDepth then next == Err(LoopDetected)
            else
              && next.Ok? && OnCircle(next.value, count, 0)
              && next.value.followed == c.followed + 1 && next.value.processed == Wrap32(c.processed + 1)
  {
    CircleFinds(count);
    TurnsSplitFrom(count, 0, limits);
    assert Turns(count)[..0] == [] && Turns(count)[0..] == Turns(count);
    assert Turns(count)[k..][0] == Turns(count)[k] && Turns(count)[k..][1..] == Turns(count)[k + 1..];
    TargetSplits(count, limits);
    hide SplitFrom, Split, Directories.Find, TurnsPath, MostComponents;
    assert Turns(count) + [] == Turns(count);
  }

  lemma TargetSplits(count: nat, limits: Limits)
    requires 0 < count == MostComponents(limits) && limits.maxNameBytes >= 1
    ensures Split(TurnsPath(count), limits) == Ok(Turns(count))
    ensures TurnsPath(count) != [] && TurnsPath(count)[0] != SLASH
  {
    TurnsSplitFrom(count, 0, limits);
    assert Turns(count)[..0] == [];
    hide SplitFrom;
  }

  lemma {:induction false} CircleLoops(c: Cursor, count: nat, k: nat, limits: Limits)
    requires 0 < count == MostComponents(limits) && count < TWO32 && limits.maxNameBytes >= 1 && limits.maxSymlinkDepth < TWO32 - 1
    requires OnCircle(c, count, k) && Bounded(c, limits)
    ensures ResolveFrom(Circle(count), c, true, limits, TWO32) == Err(LoopDetected)
    decreases limits.maxSymlinkDepth - c.followed, count - k
  {
    CircleAdvance(c, count, k, limits, TWO32);
    var next := Advance(Circle(count), c, true, limits, TWO32);
    hide Advance, Circle, MostComponents;
    if next.Ok? {
      CircleLoops(next.value, count, if k < count - 1 then k + 1 else 0, limits);
    }
  }

  /** Components taken after so many rounds and turns. */
  function RoundsTaken(count: nat, rounds: nat, k: nat): nat {
    count * rounds + k
  }

  lemma RoundsNext(count: nat, rounds: nat, k: nat)
    ensures RoundsTaken(count, rounds, k + 1) == RoundsTaken(count, rounds, k) + 1
    ensures RoundsTaken(count, rounds + 1, 0) == RoundsTaken(count, rounds, count)
  {
    Distribute(count, rounds);
  }

  lemma {:induction false} CircleRunsOut(c: Cursor, count: nat, k: nat, limits: Limits, budget: nat)
    requires 0 < count == MostComponents(limits) && count < TWO32 && limits.maxNameBytes >= 1 && limits.maxSymlinkDepth < TWO32 - 1
    requires budget < TWO32 - 1 && budget < RoundsTaken(count, limits.maxSymlinkDepth + 1, 0)
    requires OnCircle(c, count, k) && Bounded(c, limits) && c.processed == RoundsTaken(count, c.followed, k) <= budget
    ensures ResolveFrom(Circle(count), c, true, limits, budget) == Err(ResourceLimit)
    decreases limits.maxSymlinkDepth - c.followed, count - k
  {
    hide Advance, Circle, MostComponents, RoundsTaken, OnCircle, Turns;
    CircleAdvance(c, count, k, limits, budget);
    CircleGoesOn(c, count, k);
    RoundsNext(count, c.followed, k);
    var next := Advance(Circle(count), c, true, limits, budget);
    if c.processed + 1 <= budget {
      assert next.Ok?;
      CircleRunsOut(next.value, count, if k < count - 1 then k + 1 else 0, limits, budget);
    }
  }

  lemma CircleGoesOn(c: Cursor, count: nat, k: nat)
    requires OnCircle(c, count, k)
    ensures k < count && c.pending != []
  {
  }

  /** Otherwise it decides the resolution of some path: instead of the loop of links that is there, it
      reports that the path has too many components. */
  lemma ExpansionLimitDecides(limits: Limits) returns (ns: Namespace, path: text)
    requires !NeverDecides(limits)
    requires limits.maxNameBytes >= 1 && limits.maxSymlinkDepth < TWO32 - 1
    ensures Split(path, limits).Ok? && ResolveCursor(ns, path, ns.root, true, limits) == Err(ResourceLimit)
    ensures ResolveFrom(ns, Start(ns, path, ns.root, Split(path, limits).value), true, limits, TWO32) == Err(LoopDetected)
  {
    var count := MostComponents(limits);
    TooSmall(limits);
    hide MostComponents, LimitSuffices, ExpansionLimit, RoundsTaken, Split, TurnsPath, Circle;
    ns, path := Circle(count), TurnsPath(count);
    TargetSplits(count, limits);
    CircleStarts(path, count);
    var c := Start(ns, path, ns.root, Turns(count));
    hide Turns, OnCircle;
    CircleLoops(c, count, 0, limits);
    RoundsNone(count);
    CircleRunsOut(c, count, 0, limits, ExpansionLimit(limits));
  }

  lemma TooSmall(limits: Limits)
    requires !LimitSuffices(limits)
    ensures 0 < MostComponents(limits) < TWO32
    ensures ExpansionLimit(limits) < RoundsTaken(MostComponents(limits), limits.maxSymlinkDepth + 1, 0)
  {
    assert MostComponents(limits) == 0 ==> MostComponents(limits) * (limits.maxSymlinkDepth + 1) == 0;
  }

  lemma RoundsNone(count: nat)
    ensures RoundsTaken(count, 0, 0) == 0
  {
  }

  lemma CircleStarts(path: text, count: nat)
    requires 0 < count < TWO32 && path != [] && path[0] != SLASH
    ensures Circle(count).root == 1
    ensures OnCircle(Start(Circle(count), path, 1, Turns(count)), count, 0)
  {
    assert Turns(count)[0..] == Turns(count);
  }

  // ----- Canonical paths -----

  /** ".." of every directory is the directory that holds its entry, and of the root the root. */
  ghost predicate ParentsAgree(ns: Namespace) {
    && ns.IsDirectory(ns.root)
    && (forall d :: ns.IsDirectory(d) <==> d in ns.dirs)
    && (forall d {:trigger ns.Find(d, DOTDOT)} :: d in ns.dirs ==> ns.Find(d, DOTDOT).Some? && ns.Find(d, DOTDOT).value.inode in ns.dirs)
    && ns.Find(ns.root, DOTDOT).value.inode == ns.root
    && (forall d, i {:trigger HeldBy(ns, d, ns.dirs[d][i])} :: d in ns.dirs && 0 <= i < |ns.dirs[d]| ==> HeldBy(ns, d, ns.dirs[d][i]))
  }

  /** An active entry that names a directory is a dot entry or sits in that directory's parent. */
  predicate HeldBy(ns: Namespace, d: u64, e: DirectoryEntry) {
    !e.deleted && !e.IsDot() && e.inode in ns.dirs ==>
      ns.Find(e.inode, DOTDOT).Some? && ns.Find(e.inode, DOTDOT).value.inode == d
  }

  /** One lookup by name in a directory. */
  function Lookup(ns: Namespace, d: u64, name: text): Option<u64> {
    if ns.IsDirectory(d) && name != DOT && name != DOTDOT && ns.Find(d, name).Some?
       && ns.Find(d, name).value.inode in ns.inodes
    then Some(ns.Find(d, name).value.inode)
    else None
  }

  /** Looking the components up one by one, each in the directory the one before led to. */
  function Walk(ns: Namespace, from: u64, components: Components): Option<u64>
    decreases |components|
  {
    if components == [] then Some(from)
    else
      var d := Walk(ns, from, components[..|components| - 1]);
      if d.None? then None else Lookup(ns, d.value, components[|components| - 1])
  }

  /** How the last turn that moved got to the current inode: by a name, or by "..", a link or the
      start, which leave `parent` equal to it. */
  ghost predicate Arrived(ns: Namespace, c: Cursor) {
    || (c.parent == c.current && ns.IsDirectory(c.current))
    || (c.canonical != []
        && Walk(ns, ns.root, c.canonical[..|c.canonical| - 1]) == Some(c.parent)
        && Lookup(ns, c.parent, c.canonical[|c.canonical| - 1]) == Some(c.current))
  }

  ghost predicate OnPath(ns: Namespace, c: Cursor) {
    Walk(ns, ns.root, c.canonical) == Some(c.current) && Arrived(ns, c)
  }

  lemma WalkPush(ns: Namespace, from: u64, components: Components, name: text)
    requires Walk(ns, from, components).Some?
    ensures (components + [name])[..|components|] == components
    ensures Walk(ns, from, components + [name]) == Lookup(ns, Walk(ns, from, components).value, name)
  {
    assert (components + [name])[..|components|] == components;
  }

  lemma GoUpStaysOnPath(ns: Namespace, c: Cursor)
    requires ParentsAgree(ns) && OnPath(ns, c) && GoUp(ns, c).Ok?
    ensures OnPath(ns, GoUp(ns, c).value)
  {
    ParentIsDirectory(ns, c.current);
    if c.canonical == [] {
      RootIsItsParent(ns);
    } else {
      var last := |c.canonical| - 1;
      var d := Walk(ns, ns.root, c.canonical[..last]).value;
      LookupParent(ns, d, c.canonical[last]);
    }
  }

  lemma RootIsItsParent(ns: Namespace)
    requires ParentsAgree(ns)
    ensures ns.IsDirectory(ns.root)
    ensures ns.Find(ns.root, DOTDOT).Some? && ns.Find(ns.root, DOTDOT).value.inode == ns.root
  {
  }

  lemma ParentIsDirectory(ns: Namespace, d: u64)
    requires ParentsAgree(ns) && ns.Find(d, DOTDOT).Some?
    ensures ns.IsDirectory(d) && ns.IsDirectory(ns.Find(d, DOTDOT).value.inode)
  {
    hide FindIndex;
    assert d in ns.dirs;
  }

  /** A directory found by name has the directory it was found in as its "..". */
  lemma LookupParent(ns: Namespace, d: u64, name: text)
    requires ParentsAgree(ns) && Lookup(ns, d, name).Some?
    requires Lookup(ns, d, name).value in ns.dirs
    ensures ns.Find(Lookup(ns, d, name).value, DOTDOT).Some?
    ensures ns.Find(Lookup(ns, d, name).value, DOTDOT).value.inode == d
  {
    assert d in ns.dirs;
    var i := FoundEntry(ns, d, name);
    assert HeldBy(ns, d, ns.dirs[d][i]);
  }

  /** A name that is not a dot finds an active entry that is not a dot. */
  lemma FoundEntry(ns: Namespace, d: u64, name: text) returns (i: nat)
    requires d in ns.dirs && ns.Find(d, name).Some? && name != DOT && name != DOTDOT
    ensures i < |ns.dirs[d]| && ns.dirs[d][i] == ns.Find(d, name).value
    ensures !ns.dirs[d][i].deleted && !ns.dirs[d][i].IsDot()
  {
    i := FindIndex(ns.dirs[d], NormalizeName(name)).value;
    DotKeys(name);
  }

  lemma AdvanceStaysOnPath(ns: Namespace, c: Cursor, follow: bool, limits: Limits, budget: nat)
    requires ParentsAgree(ns) && OnPath(ns, c) && c.pending != []
    requires Advance(ns, c, follow, limits, budget).Ok?
    ensures OnPath(ns, Advance(ns, c, follow, limits, budget).value)
  {
    hide ParentsAgree, Split, GoUp, Descend, Walk, Lookup;
    var component := c.pending[0];
    var next := c.(pending := c.pending[1..], processed := Wrap32(c.processed + 1));
    assert OnPath(ns, next);
    if component == [] || component == DOT {
    } else if component == DOTDOT {
      GoUpStaysOnPath(ns, next);
    } else {
      DescendStaysOnPath(ns, next, component, follow, limits);
    }
  }

  lemma DescendStaysOnPath(ns: Namespace, c: Cursor, component: text, follow: bool, limits: Limits)
    requires ParentsAgree(ns) && OnPath(ns, c) && component != DOT && component != DOTDOT
    requires Descend(ns, c, component, follow, limits).Ok?
    ensures OnPath(ns, Descend(ns, c, component, follow, limits).value)
  {
    hide ParentsAgree, Split, Namespace.Find;
    RootIsItsParent(ns);
    WalkPush(ns, ns.root, c.canonical, component);
  }

  lemma {:induction false} ResolveFromStaysOnPath(ns: Namespace, c: Cursor, follow: bool, limits: Limits, budget: nat)
    requires Bounded(c, limits) && (limits.maxSymlinkDepth == TWO32 - 1 ==> budget == 0)
    requires ParentsAgree(ns) && OnPath(ns, c)
    requires ResolveFrom(ns, c, follow, limits, budget).Ok?
    ensures OnPath(ns, ResolveFrom(ns, c, follow, limits, budget).value)
    ensures ResolveFrom(ns, c, follow, limits, budget).value.pending == []
    decreases limits.maxSymlinkDepth - c.followed, |c.pending|
  {
    hide OnPath, ParentsAgree, Advance, Bounded;
    if c.pending != [] {
      AdvanceStaysOnPath(ns, c, follow, limits, budget);
      AdvanceProgress(ns, c, follow, limits, budget);
      ResolveFromStaysOnPath(ns, Advance(ns, c, follow, limits, budget).value, follow, limits, budget);
    }
  }

  /** A path resolved from the root: its canonical components, looked up one by one from the root
      through directories only, lead to the same inode. */
  lemma CanonicalLeadsThere(ns: Namespace, path: text, follow: bool, limits: Limits)
    requires ParentsAgree(ns)
    requires ResolveCursor(ns, path, ns.root, follow, limits).Ok?
    ensures OnPath(ns, ResolveCursor(ns, path, ns.root, follow, limits).value)
  {
    hide ParentsAgree, Split, Namespace.Find, ResolveFrom;
    var start := Start(ns, path, ns.root, Split(path, limits).value);
    RootIsItsParent(ns);
    assert OnPath(ns, start);
    ResolveFromStaysOnPath(ns, start, follow, limits, ExpansionLimit(limits));
  }

  // ----- Without links resolution is lexical -----

  lemma AdvanceLexical(ns: Namespace, c: Cursor, follow: bool, limits: Limits, budget: nat)
    requires c.pending != [] && Advance(ns, c, follow, limits, budget).Ok?
    ensures var next := Advance(ns, c, follow, limits, budget).value;
            next.followed == c.followed ==>
              next.pending == c.pending[1..] && next.canonical == PushLexical(c.canonical, c.pending[0])
  {
  }

  lemma {:induction false} ResolveFromLexical(ns: Namespace, c: Cursor, follow: bool, limits: Limits, budget: nat)
    requires Bounded(c, limits) && (limits.maxSymlinkDepth == TWO32 - 1 ==> budget == 0)
    requires ResolveFrom(ns, c, follow, limits, budget).Ok?
    ensures ResolveFrom(ns, c, follow, limits, budget).value.followed >= c.followed
    ensures ResolveFrom(ns, c, follow, limits, budget).value.followed == c.followed ==>
              ResolveFrom(ns, c, follow, limits, budget).value.canonical == Lexical(c.canonical, c.pending)
    decreases limits.maxSymlinkDepth - c.followed, |c.pending|
  {
    hide Advance, PushLexical;
    if c.pending != [] {
      AdvanceProgress(ns, c, follow, limits, budget);
      AdvanceLexical(ns, c, follow, limits, budget);
      ResolveFromLexical(ns, Advance(ns, c, follow, limits, budget).value, follow, limits, budget);
    }
  }

  /** When no symbolic link was followed the canonical path is the lexically normalised one. */
  lemma CanonicalIsNormalized(ns: Namespace, path: text, working: u64, follow: bool, limits: Limits)
    requires Resolve(ns, path, working, follow, limits).Ok?
    requires Resolve(ns, path, working, follow, limits).value.followed == 0
    ensures NormalizePath(path, limits) == Ok(Resolve(ns, path, working, follow, limits).value.canonical)
  {
    var start := Start(ns, path, working, Split(path, limits).value);
    ResolveFromLexical(ns, start, follow, limits, ExpansionLimit(limits));
  }

  // ----- Names that lead there resolve -----

  /** Names looked up one by one, none of them leading to a symbolic link. */
  ghost predicate LeadsBy(ns: Namespace, components: Components) {
    forall i :: 0 < i <= |components| ==>
      && components[i - 1] != [] && Walk(ns, ns.root, components[..i]).Some?
      && ns.inodes[Walk(ns, ns.root, components[..i]).value].inodeType != SymbolicLink
  }

  /** The cursor after the first `k` names. */
  ghost predicate AtName(ns: Namespace, c: Cursor, components: Components, k: nat) {
    && k <= |components| && c.pending == components[k..] && c.canonical == components[..k]
    && Walk(ns, ns.root, components[..k]) == Some(c.current) && c.followed == 0 && c.processed == k
    && (k > 0 ==> Walk(ns, ns.root, components[..k - 1]) == Some(c.parent))
  }

  lemma AdvanceByName(ns: Namespace, c: Cursor, components: Components, k: nat, follow: bool, limits: Limits, budget: nat)
    requires AtName(ns, c, components, k) && k < |components| <= budget < TWO32
    requires components[k] != [] && Walk(ns, ns.root, components[..k + 1]).Some?
    requires ns.inodes[Walk(ns, ns.root, components[..k + 1]).value].inodeType != SymbolicLink
    ensures Advance(ns, c, follow, limits, budget).Ok?
    ensures AtName(ns, Advance(ns, c, follow, limits, budget).value, components, k + 1)
  {
    var name := components[k];
    assert components[..k + 1] == components[..k] + [name] && components[k..][0] == name;
    assert components[k..][1..] == components[k + 1..];
    WalkPush(ns, ns.root, components[..k], name);
    assert components[..k + 1][..k] == components[..k];
    hide Walk, Directories.Find;
  }

  lemma {:induction false} NamesResolveFrom(ns: Namespace, c: Cursor, components: Components, k: nat, follow: bool, limits: Limits, budget: nat)
    requires Bounded(c, limits) && (limits.maxSymlinkDepth == TWO32 - 1 ==> budget == 0)
    requires LeadsBy(ns, components) && AtName(ns, c, components, k) && |components| <= budget < TWO32
    ensures ResolveFrom(ns, c, follow, limits, budget).Ok?
    ensures AtName(ns, ResolveFrom(ns, c, follow, limits, budget).value, components, |components|)
    decreases |components| - k
  {
    if k < |components| {
      assert components[k + 1 - 1] != [] && Walk(ns, ns.root, components[..k + 1]).Some?;
      AdvanceByName(ns, c, components, k, follow, limits, budget);
      hide Advance, AtName, LeadsBy, Bounded;
      PendingLeft(ns, c, components, k);
      AdvanceProgress(ns, c, follow, limits, budget);
      NamesResolveFrom(ns, Advance(ns, c, follow, limits, budget).value, components, k + 1, follow, limits, budget);
    } else {
      assert components[k..] == [];
    }
  }

  lemma PendingLeft(ns: Namespace, c: Cursor, components: Components, k: nat)
    requires AtName(ns, c, components, k) && k < |components|
    ensures c.pending != []
  {
    hide Walk;
  }

  /** The other way round: a path of names that lead somewhere by lookups, past no symbolic link, resolves
      there, with the directory before as its parent, and is its own canonical form. */
  lemma NamesResolve(ns: Namespace, path: text, components: Components, follow: bool, limits: Limits)
    requires path != [] && path[0] == SLASH && Split(path, limits) == Ok(components)
    requires LeadsBy(ns, components) && |components| <= ExpansionLimit(limits)
    ensures var r := ResolveCursor(ns, path, ns.root, follow, limits);
            && r.Ok? && r.value.canonical == components && r.value.followed == 0
            && Walk(ns, ns.root, components) == Some(r.value.current)
            && (components != [] ==> Walk(ns, ns.root, components[..|components| - 1]) == Some(r.value.parent))
  {
    var c := Start(ns, path, ns.root, components);
    assert components[0..] == components && components[..0] == [] && components[..|components|] == components;
    NamesResolveFrom(ns, c, components, 0, follow, limits, ExpansionLimit(limits));
  }
}
