/** What a walk lists, and when it succeeds, in terms of the directory tables alone. */
module WalkTheorems {
  import opened Base
  import opened Inodes
  import opened InodeTables
  import opened Directories
  import opened Paths
  import PathTheorems
  import opened Trees
  import opened TreeCycles
  import opened FsModel
  import opened FsInvariant
  import opened FsRemove
  import FsRemoveFrame
  import opened FsNodes
  import opened FsRuns
  import FsRooted
  import opened Walks

  // ----- What there is to list -----

  /** The path of a name in the directory at `path`. */
  function Under(path: text, name: text): text {
    if path == [SLASH] then [SLASH] + name else path + [SLASH] + name
  }

  /** The item shows inode `id` as it is in the inode table. */
  predicate Shows(ns: Namespace, w: WalkEntry, id: u64) {
    && id in ns.inodes
    && w.stat.inode == id && w.stat.inodeType == ns.inodes[id].inodeType
    && w.stat.size == ns.inodes[id].size && w.stat.allocatedBytes == ns.inodes[id].allocatedBytes
    && w.stat.linkCount == ns.inodes[id].linkCount && w.stat.mode == ns.inodes[id].mode
    && w.stat.generation == ns.inodes[id].generation
  }

  /** Item `w` is the entry at place `i` of the directory that item `v` shows: an entry that is neither
      removed nor one of the two dots. */
  predicate EntryOf(ns: Namespace, v: WalkEntry, i: nat, w: WalkEntry) {
    && v.stat.inode in ns.dirs && i < |ns.dirs[v.stat.inode]|
    && var e := ns.dirs[v.stat.inode][i];
       !e.deleted && e.name != DOT && e.name != DOTDOT && w.stat.inode == e.inode && w.path == Under(v.path, e.name)
  }

  /** The item is the start itself, or an entry of a directory found one level higher up. */
  ghost predicate Found(ns: Namespace, top: u64, path: text, w: WalkEntry)
    decreases w.depth
  {
    && Shows(ns, w, w.stat.inode)
    && if w.depth == 0 then w.stat.inode == top && w.path == path
       else exists v: WalkEntry, i: nat ::
              v.depth == w.depth - 1 && Found(ns, top, path, v) && EntryOf(ns, v, i, w)
  }

  /** There are finitely many items to list, no more than the limit, and none is too deep. */
  ghost predicate WithinLimits(ns: Namespace, top: u64, path: text, limits: Limits) {
    exists all: set<WalkEntry> :: FoundWithin(ns, top, path, all, limits)
  }

  ghost predicate FoundWithin(ns: Namespace, top: u64, path: text, all: set<WalkEntry>, limits: Limits) {
    && (forall w: WalkEntry :: w in all <==> Found(ns, top, path, w))
    && |all| <= limits.maxDirectoryEntries
    && (forall w :: w in all ==> w.depth <= limits.maxWalkDepth)
  }

  /** Exactly what is found is listed, shallower items first, no path twice and no directory twice. */
  ghost predicate Lists(ns: Namespace, top: u64, path: text, output: seq<WalkEntry>) {
    && (forall w: WalkEntry :: w in output <==> Found(ns, top, path, w))
    && (forall i, j :: 0 <= i < j < |output| ==>
          output[i].path != output[j].path && output[i].depth <= output[j].depth
          && (output[i].stat.inodeType == Directory ==> output[i].stat.inode != output[j].stat.inode))
  }

  // ----- Levels and what is found -----

  /** The start of a walk in a tree in order. */
  ghost predicate Begun(ns: Namespace, start: Pending, limits: Limits) {
    && TreeOk(ns, limits) && GoodTables(ns)
    && (forall id :: id in ns.inodes ==> ns.inodes[id].identifier == id)
    && start.inode in ns.inodes && start.depth == 0 && Placed(start, Rank(start.path), 0)
  }

  lemma {:induction false} PendingHas(entries: Entries, path: text, depth: nat, e: nat)
    requires e < |entries| && !entries[e].deleted && !entries[e].IsDot()
    ensures Pending(entries[e].inode, Below(path, entries[e].name), depth) in PendingEntries(entries, path, depth)
    decreases |entries|
  {
    hide Below;
    if e > 0 {
      PendingHas(entries[1..], path, depth, e - 1);
    }
  }

  lemma {:induction false} ChildIn(ns: Namespace, level: seq<Pending>, p: Pending, c: Pending)
    requires p in level && c in Children(ns, p)
    ensures c in ChildrenOf(ns, level)
    decreases |level|
  {
    hide Children;
    if p != level[0] {
      ChildIn(ns, level[1..], p, c);
    }
  }

  lemma BelowIsUnder(path: text, name: text)
    requires Listable(path) && (|path| == 1 ==> path == [SLASH])
    ensures Below(path, name) == Under(path, name)
  {
  }

  lemma ItemShows(ns: Namespace, p: Pending, limits: Limits, start: Pending)
    requires Begun(ns, start, limits) && p.inode in ns.inodes
    ensures Shows(ns, ListedAs(ns, p), p.inode)
    ensures ListedAs(ns, p).path == p.path && ListedAs(ns, p).depth == p.depth && ListedAs(ns, p).stat.inode == p.inode
  {
  }

  lemma ShownOnce(ns: Namespace, v: WalkEntry, w: WalkEntry)
    requires Shows(ns, v, v.stat.inode) && Shows(ns, w, v.stat.inode) && v.path == w.path && v.depth == w.depth
    ensures v == w
  {
  }

  /** The entry of the table that a child comes from. */
  lemma ChildEntry(ns: Namespace, start: Pending, p: Pending, c: nat, limits: Limits) returns (i: nat)
    requires Begun(ns, start, limits) && c < |Children(ns, p)|
    ensures p.inode in ns.dirs && 2 <= i < |ns.dirs[p.inode]|
    ensures var e := ns.dirs[p.inode][i];
            !e.deleted && !e.IsDot() && Children(ns, p)[c] == Pending(e.inode, Below(p.path, e.name), p.depth + 1)
            && NameOk(ns, p.inode, e)
  {
    hide Below, PendingEntries, Placed, GoodTables;
    i := EntryPaths(ns.dirs[p.inode], p.path, p.depth + 1, c);
    assert TableOk(p.inode, ns.dirs[p.inode], limits);
    assert i >= 2;
    assert NameOk(ns, p.inode, ns.dirs[p.inode][i]);
  }

  lemma {:induction false} LevelFound(ns: Namespace, start: Pending, k: nat, j: nat, limits: Limits)
    requires Begun(ns, start, limits) && j < |Level(ns, start, k)|
    ensures var p := Level(ns, start, k)[j];
            p.depth == k && p.inode in ns.inodes && Found(ns, start.inode, start.path, ListedAs(ns, p))
    decreases k
  {
    hide TreeOk, GoodTables, Children, ChildrenOf, Below, Rank, NameOk, EntryOf;
    var p := Level(ns, start, k)[j];
    if k == 0 {
      ItemShows(ns, p, limits, start);
    } else {
      var level := Level(ns, start, k - 1);
      var q, c := ChildOfSome(ns, level, j);
      LevelFound(ns, start, k - 1, q, limits);
      LevelPlaced(ns, start, k - 1);
      assert Placed(level[q], Rank(start.path), k - 1);
      var i := ChildEntry(ns, start, level[q], c, limits);
      EntryExists(ns, start, level[q], i, p, limits);
      hide Found;
      ItemShows(ns, p, limits, start);
      ItemShows(ns, level[q], limits, start);
      var v, w := ListedAs(ns, level[q]), ListedAs(ns, p);
      FoundNext(ns, start.inode, start.path, v, i, w);
    }
  }

  lemma EntryExists(ns: Namespace, start: Pending, q: Pending, i: nat, p: Pending, limits: Limits)
    requires Begun(ns, start, limits) && q.inode in ns.dirs && q.inode in ns.inodes && i < |ns.dirs[q.inode]|
    requires Listable(q.path) && (|q.path| == 1 ==> q.path == [SLASH])
    requires var e := ns.dirs[q.inode][i];
             NameOk(ns, q.inode, e) && !e.deleted && !e.IsDot() && p == Pending(e.inode, Below(q.path, e.name), q.depth + 1)
    ensures p.inode in ns.inodes && EntryOf(ns, ListedAs(ns, q), i, ListedAs(ns, p))
  {
    hide TreeOk, GoodTables, Placed;
    BelowIsUnder(q.path, ns.dirs[q.inode][i].name);
    hide Below, Under, Listable;
    ItemShows(ns, p, limits, start);
    ItemShows(ns, q, limits, start);
  }

  lemma FoundNext(ns: Namespace, top: u64, path: text, v: WalkEntry, i: nat, w: WalkEntry)
    requires Found(ns, top, path, v) && EntryOf(ns, v, i, w) && Shows(ns, w, w.stat.inode) && w.depth == v.depth + 1
    ensures Found(ns, top, path, w)
  {
  }

  /** What a found item stands for is in its level. */
  lemma {:induction false} FoundInLevel(ns: Namespace, start: Pending, w: WalkEntry, limits: Limits)
    requires Begun(ns, start, limits) && Found(ns, start.inode, start.path, w)
    ensures Pending(w.stat.inode, w.path, w.depth) in Level(ns, start, w.depth)
    ensures w == ListedAs(ns, Pending(w.stat.inode, w.path, w.depth))
    decreases w.depth
  {
    hide TreeOk, GoodTables, Children, ChildrenOf, EntryOf, Rank;
    var p := Pending(w.stat.inode, w.path, w.depth);
    ItemShows(ns, p, limits, start);
    ShownOnce(ns, w, ListedAs(ns, p));
    if w.depth > 0 {
      var v: WalkEntry, i: nat :|
        v.depth == w.depth - 1 && Found(ns, start.inode, start.path, v) && EntryOf(ns, v, i, w);
      FoundInLevel(ns, start, v, limits);
      var q := Pending(v.stat.inode, v.path, v.depth);
      var level := Level(ns, start, v.depth);
      var at :| 0 <= at < |level| && level[at] == q;
      LevelPlaced(ns, start, v.depth);
      assert Placed(level[at], Rank(start.path), v.depth);
      EntryIsChild(ns, start, v, i, w, limits);
      ChildIn(ns, level, q, p);
    }
  }

  lemma EntryIsChild(ns: Namespace, start: Pending, v: WalkEntry, i: nat, w: WalkEntry, limits: Limits)
    requires Begun(ns, start, limits) && EntryOf(ns, v, i, w) && v.stat.inode in ns.inodes && w.depth == v.depth + 1
    requires Listable(v.path) && (|v.path| == 1 ==> v.path == [SLASH])
    ensures Pending(w.stat.inode, w.path, w.depth) in Children(ns, Pending(v.stat.inode, v.path, v.depth))
  {
    hide GoodTables, Placed, PendingEntries;
    TreeRoot(ns, limits);
    hide TreeOk;
    var e := ns.dirs[v.stat.inode][i];
    BelowIsUnder(v.path, e.name);
    hide Below, Under, Listable;
    PendingHas(ns.dirs[v.stat.inode], v.path, v.depth + 1, i);
  }

  // ----- The items of all levels -----

  lemma {:induction false} ListedFrom(ns: Namespace, start: Pending, n: nat, w: WalkEntry) returns (k: nat, j: nat)
    requires w in LevelsAbove(ns, start, n)
    ensures k < n && j < |Level(ns, start, k)| && ListedAs(ns, Level(ns, start, k)[j]) == w
  {
    hide Level, ListedAs;
    if w in LevelsAbove(ns, start, n - 1) {
      k, j := ListedFrom(ns, start, n - 1, w);
    } else {
      k := n - 1;
      var listing := Listing(ns, Level(ns, start, k));
      var at :| 0 <= at < |listing| && listing[at] == w;
      j := at;
    }
  }

  /** Down to the first empty level, the levels hold exactly what is found. */
  lemma LevelsAreFound(ns: Namespace, start: Pending, n: nat, w: WalkEntry, limits: Limits)
    requires Begun(ns, start, limits) && Level(ns, start, n) == []
    ensures w in LevelsAbove(ns, start, n) <==> Found(ns, start.inode, start.path, w)
  {
    hide Begun, Level, ListedAs, Found;
    if w in LevelsAbove(ns, start, n) {
      var k, j := ListedFrom(ns, start, n, w);
      LevelFound(ns, start, k, j, limits);
    }
    if Found(ns, start.inode, start.path, w) {
      FoundInLevel(ns, start, w, limits);
      if n <= w.depth {
        EmptyBelow(ns, start, n, w.depth);
      }
      var level := Level(ns, start, w.depth);
      var j :| 0 <= j < |level| && level[j] == Pending(w.stat.inode, w.path, w.depth);
      LevelListed(ns, start, w.depth, j, n);
    }
  }

  // ----- No way back up -----

  /** The directory a child was found in is the one its ".." leads to. */
  lemma ChildUp(ns: Namespace, start: Pending, p: Pending, c: nat, limits: Limits)
    requires Begun(ns, start, limits) && c < |Children(ns, p)| && Children(ns, p)[c].inode in ns.dirs
    ensures var d := Children(ns, p)[c].inode;
            d != ns.root && |ns.dirs[d]| >= 2 && Up(ns.dirs, d) == p.inode
  {
    hide TreeOk, GoodTables, Children;
    var i := ChildEntry(ns, start, p, c, limits);
  }

  lemma {:induction false} LevelBelow(ns: Namespace, start: Pending, k: nat, j: nat, limits: Limits)
    requires Begun(ns, start, limits) && j < |Level(ns, start, k)| && Level(ns, start, k)[j].inode in ns.dirs
    ensures StepsUp(ns.dirs, Level(ns, start, k)[j].inode, k) == Some(start.inode)
    decreases k
  {
    if k > 0 {
      hide Begun, Children, ChildrenOf;
      var level := Level(ns, start, k - 1);
      var q, c := ChildOfSome(ns, level, j);
      ChildUp(ns, start, level[q], c, limits);
      var _ := ChildEntry(ns, start, level[q], c, limits);
      LevelBelow(ns, start, k - 1, q, limits);
    }
  }

  /** The start hangs from the root, if it is a directory. */
  ghost predicate Hangs(ns: Namespace, start: Pending) {
    start.inode in ns.dirs ==> FsRemoveFrame.Below(ns.dirs, ns.root, start.inode)
  }

  lemma NotTheStart(ns: Namespace, start: Pending, k: nat, j: nat, limits: Limits)
    requires Begun(ns, start, limits) && Hangs(ns, start) && k > 0 && j < |Level(ns, start, k)|
    requires start.inode in ns.dirs
    ensures Level(ns, start, k)[j].inode != start.inode
  {
    hide TreeOk, GoodTables, Placed, Children, ChildrenOf;
    if Level(ns, start, k)[j].inode == start.inode {
      LevelBelow(ns, start, k, j, limits);
      var n: nat :| FsRemoveFrame.BelowIn(ns.dirs, ns.root, start.inode, n);
      NoCycle(ns, start.inode, k, n, limits);
      var q, c := ChildOfSome(ns, Level(ns, start, k - 1), j);
      ChildUp(ns, start, Level(ns, start, k - 1)[q], c, limits);
    }
  }

  /** A directory is found under one path only. */
  lemma {:induction false} OnePath(ns: Namespace, start: Pending, k: nat, j: nat, m: nat, i: nat, limits: Limits)
    requires Begun(ns, start, limits) && LinksOk(ns) && Hangs(ns, start)
    requires j < |Level(ns, start, k)| && i < |Level(ns, start, m)|
    requires Level(ns, start, k)[j].inode == Level(ns, start, m)[i].inode && Level(ns, start, k)[j].inode in ns.dirs
    ensures k == m && Level(ns, start, k)[j].path == Level(ns, start, m)[i].path
    decreases k
  {
    hide Begun, LinksOk, Hangs, Children, ChildrenOf, NameOk, Below;
    if k == 0 {
      if m > 0 {
        NotTheStart(ns, start, m, i, limits);
      }
    } else if m == 0 {
      NotTheStart(ns, start, k, j, limits);
    } else {
      var d := Level(ns, start, k)[j].inode;
      var left, right := Level(ns, start, k - 1), Level(ns, start, m - 1);
      var p, c := ChildOfSome(ns, left, j);
      var q, e := ChildOfSome(ns, right, i);
      ChildUp(ns, start, left[p], c, limits);
      ChildUp(ns, start, right[q], e, limits);
      var a := ChildEntry(ns, start, left[p], c, limits);
      var b := ChildEntry(ns, start, right[q], e, limits);
      OnePath(ns, start, k - 1, p, m - 1, q, limits);
      OneEntry(ns, start, left[p].inode, a, b, d, limits);
    }
  }

  lemma OneEntry(ns: Namespace, start: Pending, d: u64, a: nat, b: nat, id: u64, limits: Limits)
    requires Begun(ns, start, limits) && LinksOk(ns) && id in ns.dirs && id != ns.root
    requires d in ns.dirs && 2 <= a < |ns.dirs[d]| && 2 <= b < |ns.dirs[d]|
    requires !ns.dirs[d][a].deleted && ns.dirs[d][a].inode == id && !ns.dirs[d][b].deleted && ns.dirs[d][b].inode == id
    ensures a == b
  {
    hide TreeOk, LinksOk, GoodTables, Placed, Links;
    TreeRoot(ns, limits);
    OneName(ns, id, limits);
    LinkMeans(ns.dirs, id, d, a);
    LinkMeans(ns.dirs, id, d, b);
    OneMember(Links(ns.dirs, id), (d, a as int), (d, b as int));
  }

  /** So it is met once. */
  lemma OnePlace(ns: Namespace, start: Pending, k: nat, j: nat, m: nat, i: nat, limits: Limits)
    requires Begun(ns, start, limits) && LinksOk(ns) && Hangs(ns, start)
    requires j < |Level(ns, start, k)| && i < |Level(ns, start, m)|
    requires Level(ns, start, k)[j].inode == Level(ns, start, m)[i].inode && Level(ns, start, k)[j].inode in ns.dirs
    ensures k == m && j == i
  {
    hide TreeOk, LinksOk, Hangs, GoodTables, Placed, Level;
    OnePath(ns, start, k, j, m, i, limits);
    LevelPlaced(ns, start, k);
  }

  // ----- Success -----

  /** The directories entered so far are those before place `j` of level `k`. */
  ghost predicate Entered(ns: Namespace, start: Pending, k: nat, j: nat, visited: set<u64>) {
    forall id :: id in visited ==> MetBefore(ns, start, k, j, id)
  }

  ghost predicate MetBefore(ns: Namespace, start: Pending, k: nat, j: nat, id: u64) {
    exists m: nat, i: nat :: At(ns, start, m, i, id) && (m < k || (m == k && i < j))
  }

  predicate At(ns: Namespace, start: Pending, m: nat, i: nat, id: u64) {
    i < |Level(ns, start, m)| && Level(ns, start, m)[i].inode == id
  }

  lemma EnteredLater(ns: Namespace, start: Pending, k: nat, j: nat, visited: set<u64>)
    requires Entered(ns, start, k, j, visited)
    ensures j < |Level(ns, start, k)| ==> Entered(ns, start, k, j + 1, visited + {Level(ns, start, k)[j].inode})
    ensures Entered(ns, start, k + 1, 0, visited) && Entered(ns, start, k, j + 1, visited)
  {
    hide Level, At;
    forall id | id in visited ensures MetBefore(ns, start, k, j + 1, id) && MetBefore(ns, start, k + 1, 0, id) {
      assert MetBefore(ns, start, k, j, id);
    }
    if j < |Level(ns, start, k)| {
      MetHere(ns, start, k, j);
    }
  }

  lemma MetHere(ns: Namespace, start: Pending, k: nat, j: nat)
    requires j < |Level(ns, start, k)|
    ensures MetBefore(ns, start, k, j + 1, Level(ns, start, k)[j].inode)
  {
    hide Level;
    assert At(ns, start, k, j, Level(ns, start, k)[j].inode);
  }

  lemma {:induction false} LevelsLength(ns: Namespace, start: Pending, k: nat, n: nat)
    requires k <= n
    ensures |LevelsAbove(ns, start, k)| + (if k < n then |Level(ns, start, k)| else 0) <= |LevelsAbove(ns, start, n)|
    decreases n
  {
    hide Level;
    if k < n {
      LevelsLength(ns, start, k, n - 1);
    }
  }

  /** From the middle of a level on, a walk succeeds if all the levels fit the limits. */
  lemma {:induction false} WalkSucceeds(ns: Namespace, start: Pending, k: nat, j: nat, n: nat, visited: set<u64>, limits: Limits)
    requires Begun(ns, start, limits) && LinksOk(ns) && Hangs(ns, start) && Level(ns, start, n) == []
    requires k <= n <= limits.maxWalkDepth + 1 && |LevelsAbove(ns, start, n)| <= limits.maxDirectoryEntries
    requires j <= |Level(ns, start, k)| && Entered(ns, start, k, j, visited)
    ensures WalkFrom(ns, Queue(ns, start, k, j), visited, Done(ns, start, k, j), limits).Ok?
    decreases n - k, |Level(ns, start, k)| - j
  {
    hide TreeOk, LinksOk, Hangs, GoodTables, Placed, Level, Queue, ListedAs, PendingEntries, LevelsAbove, Unvisited, Entered, Found;
    if j == |Level(ns, start, k)| {
      NextLevel(ns, start, k);
      if k == n {
        EmptyBelow(ns, start, n, n + 1);
      } else {
        EnteredLater(ns, start, k, j, visited);
        WalkSucceeds(ns, start, k + 1, 0, n, visited, limits);
      }
    } else {
      var p := Level(ns, start, k)[j];
      QueueStep(ns, start, k, j);
      ListedIs(ns, p);
      LevelsLength(ns, start, k, n);
      LevelFound(ns, start, k, j, limits);
      EnteredLater(ns, start, k, j, visited);
      TreeRoot(ns, limits);
      if ns.inodes[p.inode].inodeType != Directory {
        assert Children(ns, p) == [];
        assert Queue(ns, start, k, j)[1..] + [] == Queue(ns, start, k, j)[1..];
        WalkSucceeds(ns, start, k, j + 1, n, visited, limits);
      } else {
        NotYet(ns, start, k, j, visited, limits);
        FewerUnvisited(ns, visited, p.inode);
        WalkSucceeds(ns, start, k, j + 1, n, visited + {p.inode}, limits);
      }
    }
  }

  lemma NotYet(ns: Namespace, start: Pending, k: nat, j: nat, visited: set<u64>, limits: Limits)
    requires Begun(ns, start, limits) && LinksOk(ns) && Hangs(ns, start)
    requires j < |Level(ns, start, k)| && Level(ns, start, k)[j].inode in ns.dirs && Entered(ns, start, k, j, visited)
    ensures Level(ns, start, k)[j].inode !in visited
  {
    hide Begun, LinksOk, Hangs, Level;
    var id := Level(ns, start, k)[j].inode;
    if id in visited {
      assert MetBefore(ns, start, k, j, id);
      var m: nat, i: nat :| At(ns, start, m, i, id) && (m < k || (m == k && i < j));
      OnePlace(ns, start, k, j, m, i, limits);
    }
  }

  /** What a walk that succeeds lists is within the limits. */
  lemma {:induction false} WalkWithin(ns: Namespace, pending: seq<Pending>, visited: set<u64>, output: seq<WalkEntry>, limits: Limits)
    requires |output| <= limits.maxDirectoryEntries && forall i :: 0 <= i < |output| ==> output[i].depth <= limits.maxWalkDepth
    requires WalkFrom(ns, pending, visited, output, limits).Ok?
    ensures var r := WalkFrom(ns, pending, visited, output, limits).value;
            |r| <= limits.maxDirectoryEntries && forall i :: 0 <= i < |r| ==> r[i].depth <= limits.maxWalkDepth
    decreases |Unvisited(ns, visited)|, |pending|
  {
    hide PendingEntries, Unvisited;
    if pending != [] {
      var current := pending[0];
      var inode := ns.inodes[current.inode];
      var listed := output + [WalkEntry(current.path, Stat(inode), current.depth)];
      if inode.inodeType != Directory {
        WalkWithin(ns, pending[1..], visited, listed, limits);
      } else {
        FewerUnvisited(ns, visited, current.inode);
        var children := PendingEntries(ns.dirs[inode.identifier], current.path, current.depth + 1);
        WalkWithin(ns, pending[1..] + children, visited + {inode.identifier}, listed, limits);
      }
    }
  }

  lemma {:induction false} DistinctWithin(output: seq<WalkEntry>, all: set<WalkEntry>)
    requires PathsOnce(output) && forall i :: 0 <= i < |output| ==> output[i] in all
    ensures |output| <= |all|
    decreases |output|
  {
    if output != [] {
      var last := |output| - 1;
      DistinctWithin(output[..last], all - {output[last]});
    }
  }

  lemma {:induction false} SetOf(output: seq<WalkEntry>)
    ensures |set w | w in output| <= |output|
    decreases |output|
  {
    if output != [] {
      var last := |output| - 1;
      SetOf(output[..last]);
      assert (set w | w in output) == (set w | w in output[..last]) + {output[last]};
    }
  }

  /** Within the limits there is an empty level soon enough, and the levels above it fit. */
  lemma LevelsFit(ns: Namespace, start: Pending, limits: Limits)
    requires Begun(ns, start, limits) && WithinLimits(ns, start.inode, start.path, limits)
    ensures var n := limits.maxWalkDepth + 1;
            Level(ns, start, n) == [] && |LevelsAbove(ns, start, n)| <= limits.maxDirectoryEntries
  {
    hide TreeOk, GoodTables, Placed, Level, LevelsAbove, Found, ListedAs, PathsOnce, Rank, Listable;
    var n := limits.maxWalkDepth + 1;
    var all: set<WalkEntry> :| FoundWithin(ns, start.inode, start.path, all, limits);
    hide FoundWithin;
    if Level(ns, start, n) != [] {
      var p := Level(ns, start, n)[0];
      LevelFound(ns, start, n, 0, limits);
      ItemShows(ns, p, limits, start);
      WithinMeans(ns, start.inode, start.path, all, ListedAs(ns, p), limits);
    }
    var output := LevelsAbove(ns, start, n);
    LevelsOnce(ns, start, n);
    forall i | 0 <= i < |output| ensures output[i] in all {
      LevelsAreFound(ns, start, n, output[i], limits);
      WithinMeans(ns, start.inode, start.path, all, output[i], limits);
    }
    DistinctWithin(output, all);
    FewEnough(ns, start.inode, start.path, all, limits);
  }

  lemma WithinMeans(ns: Namespace, top: u64, path: text, all: set<WalkEntry>, w: WalkEntry, limits: Limits)
    requires FoundWithin(ns, top, path, all, limits) && Found(ns, top, path, w)
    ensures w in all && w.depth <= limits.maxWalkDepth
  {
    hide Found;
  }

  lemma FewEnough(ns: Namespace, top: u64, path: text, all: set<WalkEntry>, limits: Limits)
    requires FoundWithin(ns, top, path, all, limits)
    ensures |all| <= limits.maxDirectoryEntries
  {
    hide Found;
  }

  // ----- The theorem -----

  lemma WalkStart(fs: Fs, path: text, limits: Limits)
    requires Safe(fs, limits) && Resolve(fs.core.Names(), path, fs.core.superblock.rootInode, true, limits).Ok?
    ensures var ns := fs.core.Names();
            var start := StartOf(ns, path, limits);
            Begun(ns, start, limits) && LinksOk(ns) && Hangs(ns, start)
  {
    hide CoreInv, Safe, TreeOk, LinksOk, OwnershipOk, StillOk, EntriesOk, Table.Valid, Resolve, GoodTables, Placed, Listable;
    var ns := fs.core.Names();
    SafeParts(fs, limits);
    InvPieces(fs.core, limits);
    StartListable(ns, path, limits);
    StartHangs(ns, path, limits);
    TreeNames(ns, limits);
    StartPlaced(StartOf(ns, path, limits));
    TableKeys(fs.core.table, limits);
  }

  lemma StartPlaced(start: Pending)
    requires Listable(start.path) && (|start.path| == 1 ==> start.path == [SLASH])
    ensures Placed(start, Rank(start.path), 0)
  {
  }

  lemma TableKeys(table: Table, limits: Limits)
    requires table.Valid(limits)
    ensures forall id :: id in table.inodes ==> table.inodes[id].identifier == id
  {
  }

  lemma TreeNames(ns: Namespace, limits: Limits)
    requires TreeOk(ns, limits)
    ensures GoodTables(ns)
  {
    forall d | d in ns.dirs ensures GoodNames(ns.dirs[d]) && UniqueNames(ns.dirs[d]) {
      assert TableOk(d, ns.dirs[d], limits);
      hide TreeOk, UniqueNames;
    }
  }

  lemma StartHangs(ns: Namespace, path: text, limits: Limits)
    requires TreeOk(ns, limits) && Resolve(ns, path, ns.root, true, limits).Ok?
    ensures var start := StartOf(ns, path, limits);
            start.inode in ns.inodes && Hangs(ns, start)
  {
    TreeRoot(ns, limits);
    TreeParentsAgree(ns, limits);
    hide TreeOk, ResolveCursor, PathTheorems.ParentsAgree, PathTheorems.Walk, FsRemoveFrame.Below;
    PathTheorems.CanonicalLeadsThere(ns, path, true, limits);
    var c := ResolveCursor(ns, path, ns.root, true, limits).value;
    if c.current in ns.dirs {
      FsRooted.WalkBelow(ns, c.canonical, c.current, limits);
    }
    WalkEnds(ns, c.canonical, limits);
  }

  lemma WalkEnds(ns: Namespace, components: Components, limits: Limits)
    requires TreeOk(ns, limits) && PathTheorems.Walk(ns, ns.root, components).Some?
    ensures PathTheorems.Walk(ns, ns.root, components).value in ns.inodes
  {
    TreeRoot(ns, limits);
  }

  /** A walk lists exactly what there is: its start, and every entry, neither removed nor a dot, of every
      directory it lists, one level deeper, under the directory's path with the entry's name, and with
      the fields of its inode. Nothing is listed twice, shallower items come first, and no directory is
      listed under two paths. It succeeds if and only if the path resolves and all there is to list is
      within the limits on depth and number. */
  lemma WalkFinds(fs: Fs, path: text, limits: Limits)
    requires Safe(fs, limits)
    ensures var ns := fs.core.Names();
            var at := Resolve(ns, path, ns.root, true, limits);
            var r := Walk(ns, path, limits);
            && (at.Err? ==> r == Err(at.code))
            && (at.Ok? ==>
                  && (r.Ok? <==> WithinLimits(ns, at.value.inode, at.value.canonical, limits))
                  && (r.Ok? ==> Lists(ns, at.value.inode, at.value.canonical, r.value)))
  {
    hide CoreInv, Safe, Resolve, WalkFrom, WithinLimits, Found;
    var ns := fs.core.Names();
    var at := Resolve(ns, path, ns.root, true, limits);
    if at.Ok? {
      WalkStart(fs, path, limits);
      var start := StartOf(ns, path, limits);
      StartsQueue(ns, start);
      if Walk(ns, path, limits).Ok? {
        WalkLists(ns, start, limits);
      }
      if WithinLimits(ns, start.inode, start.path, limits) {
        LevelsFit(ns, start, limits);
        hide Begun, Hangs, LinksOk, Level, LevelsAbove;
        WalkSucceeds(ns, start, 0, 0, limits.maxWalkDepth + 1, {}, limits);
      }
    }
  }

  lemma WalkLists(ns: Namespace, start: Pending, limits: Limits)
    requires Begun(ns, start, limits) && LinksOk(ns) && Hangs(ns, start)
    requires WalkFrom(ns, [start], {}, [], limits).Ok?
    ensures var output := WalkFrom(ns, [start], {}, [], limits).value;
            && WithinLimits(ns, start.inode, start.path, limits)
            && Lists(ns, start.inode, start.path, output)
  {
    hide TreeOk, GoodTables, Placed, LinksOk, Hangs, WalkFrom, Level, LevelsAbove, Found, Rank, Listable;
    var output := WalkFrom(ns, [start], {}, [], limits).value;
    StartsQueue(ns, start);
    WalkListsLevels(ns, start, 0, 0, {}, limits);
    var n :| Level(ns, start, n) == [] && output == LevelsAbove(ns, start, n);
    forall w: WalkEntry ensures w in output <==> Found(ns, start.inode, start.path, w) {
      LevelsAreFound(ns, start, n, w, limits);
    }
    LevelsOrdered(ns, start, n);
    LevelsOnce(ns, start, n);
    WalkEntersOnce(ns, [start], {}, [], limits);
    WalkWithin(ns, [start], {}, [], limits);
    var all := set w | w in output;
    SetOf(output);
    assert FoundWithin(ns, start.inode, start.path, all, limits);
    forall i, j | 0 <= i < j < |output| && output[i].stat.inodeType == Directory
      ensures output[i].stat.inode != output[j].stat.inode
    {
      assert Found(ns, start.inode, start.path, output[i]) && Found(ns, start.inode, start.path, output[j]);
      FoundShows(ns, start.inode, start.path, output[i]);
      FoundShows(ns, start.inode, start.path, output[j]);
    }
  }

  lemma FoundShows(ns: Namespace, top: u64, path: text, w: WalkEntry)
    requires Found(ns, top, path, w)
    ensures Shows(ns, w, w.stat.inode)
  {
  }
}
