/** Listing everything below a path, breadth first. */
module Walks {
  import opened Base
  import opened Inodes
  import opened Directories
  import opened Paths
  import opened FsModel

  datatype FileStat = FileStat(
    inode: u64,
    inodeType: InodeType,
    size: u64,
    allocatedBytes: u64,
    linkCount: u32,
    mode: u16,
    generation: u64
  )

  datatype WalkEntry = WalkEntry(path: text, stat: FileStat, depth: nat)

  /** An inode still to be listed, with the path it was found under. */
  datatype Pending = Pending(inode: u64, path: text, depth: nat)

  function Stat(inode: Inode): FileStat {
    FileStat(inode.identifier, inode.inodeType, inode.size, inode.allocatedBytes, inode.linkCount, inode.mode, inode.generation)
  }

  /** The path of an entry of a listed directory. */
  function Below(path: text, name: text): text {
    (if |path| > 1 && path[|path| - 1] != SLASH then path + [SLASH] else path) + name
  }

  function PendingEntries(entries: Entries, path: text, depth: nat): seq<Pending> {
    if entries == [] then []
    else
      (if entries[0].deleted || entries[0].IsDot() then [] else [Pending(entries[0].inode, Below(path, entries[0].name), depth)])
      + PendingEntries(entries[1..], path, depth)
  }

  /** Directories not yet entered. */
  function Unvisited(ns: Namespace, visited: set<u64>): set<u64> {
    set id | id in ns.inodes && ns.inodes[id].identifier !in visited :: ns.inodes[id].identifier
  }

  lemma FewerUnvisited(ns: Namespace, visited: set<u64>, id: u64)
    requires id in ns.inodes && ns.inodes[id].identifier !in visited
    ensures |Unvisited(ns, visited + {ns.inodes[id].identifier})| < |Unvisited(ns, visited)|
  {
    var entered := ns.inodes[id].identifier;
    assert Unvisited(ns, visited + {entered}) == Unvisited(ns, visited) - {entered};
    assert entered in Unvisited(ns, visited);
  }

  /** The queue loop: the first of the queue is listed, a directory's entries go to its end. It ends on
      any tables, cyclic ones included: a directory is entered once, anything else leaves the queue. */
  function WalkFrom(ns: Namespace, pending: seq<Pending>, visited: set<u64>, output: seq<WalkEntry>, limits: Limits): Result<seq<WalkEntry>>
    decreases |Unvisited(ns, visited)|, |pending|
  {
    if pending == [] then Ok(output)
    else
      var current := pending[0];
      if current.depth > limits.maxWalkDepth then Err(ResourceLimit)
      else if current.inode !in ns.inodes then Err(InvalidInode)
      else
        var inode := ns.inodes[current.inode];
        var listed := output + [WalkEntry(current.path, Stat(inode), current.depth)];
        if |listed| > limits.maxDirectoryEntries then Err(ResourceLimit)
        else if inode.inodeType != Directory then WalkFrom(ns, pending[1..], visited, listed, limits)
        else if inode.identifier in visited then Err(LoopDetected)
        else if inode.identifier !in ns.dirs then Err(InvalidDirectory)
        else
          FewerUnvisited(ns, visited, current.inode);
          var children := PendingEntries(ns.dirs[inode.identifier], current.path, current.depth + 1);
          WalkFrom(ns, pending[1..] + children, visited + {inode.identifier}, listed, limits)
  }

  function Walk(ns: Namespace, path: text, limits: Limits): Result<seq<WalkEntry>> {
    var at :- Resolve(ns, path, ns.root, true, limits);
    WalkFrom(ns, [Pending(at.inode, at.canonical, 0)], {}, [], limits)
  }

  method ListEntries(entries: Entries, path: text, depth: nat, queue: seq<Pending>) returns (grown: seq<Pending>)
    ensures grown == queue + PendingEntries(entries, path, depth)
  {
    grown := queue;
    var index := 0;
    assert entries[0..] == entries;
    while index < |entries|
      invariant 0 <= index <= |entries|
      invariant grown + PendingEntries(entries[index..], path, depth) == queue + PendingEntries(entries, path, depth)
    {
      var entry := entries[index];
      assert entries[index..][1..] == entries[index + 1..];
      ghost var rest := PendingEntries(entries[index + 1..], path, depth);
      if !entry.deleted && !entry.IsDot() {
        var child := Pending(entry.inode, Below(path, entry.name), depth);
        assert grown + ([child] + rest) == grown + [child] + rest;
        grown := grown + [child];
      } else {
        assert [] + rest == rest;
      }
      index := index + 1;
    }
    assert grown + [] == grown;
  }

  method WalkPath(ns: Namespace, path: text, limits: Limits) returns (r: Result<seq<WalkEntry>>)
    ensures r == Walk(ns, path, limits)
  {
    hide Resolve, PendingEntries;
    var root := ResolvePath(ns, path, ns.root, true, limits);
    if root.Err? {
      return Err(root.code);
    }
    var pending := [Pending(root.value.inode, root.value.canonical, 0)];
    var output: seq<WalkEntry> := [];
    var visited: set<u64> := {};
    while pending != []
      invariant WalkFrom(ns, pending, visited, output, limits) == Walk(ns, path, limits)
      decreases |Unvisited(ns, visited)|, |pending|
    {
      var current := pending[0];
      pending := pending[1..];
      if current.depth > limits.maxWalkDepth {
        return Err(ResourceLimit);
      }
      if current.inode !in ns.inodes {
        return Err(InvalidInode);
      }
      var inode := ns.inodes[current.inode];
      output := output + [WalkEntry(current.path, Stat(inode), current.depth)];
      if |output| > limits.maxDirectoryEntries {
        return Err(ResourceLimit);
      }
      if inode.inodeType == Directory {
        if inode.identifier in visited {
          return Err(LoopDetected);
        }
        if inode.identifier !in ns.dirs {
          return Err(InvalidDirectory);
        }
        FewerUnvisited(ns, visited, current.inode);
        visited := visited + {inode.identifier};
        pending := ListEntries(ns.dirs[inode.identifier], current.path, current.depth + 1, pending);
      }
    }
    return Ok(output);
  }

  // ----- Levels -----

  /** What a pending inode contributes to the next level. */
  function Children(ns: Namespace, p: Pending): seq<Pending> {
    if p.inode in ns.inodes && ns.inodes[p.inode].inodeType == Directory && ns.inodes[p.inode].identifier in ns.dirs
    then PendingEntries(ns.dirs[ns.inodes[p.inode].identifier], p.path, p.depth + 1)
    else []
  }

  function ChildrenOf(ns: Namespace, level: seq<Pending>): seq<Pending> {
    if level == [] then [] else Children(ns, level[0]) + ChildrenOf(ns, level[1..])
  }

  /** Everything `k` names below the start, in order: the children of the level above, in turn. */
  function Level(ns: Namespace, start: Pending, k: nat): seq<Pending> {
    if k == 0 then [start] else ChildrenOf(ns, Level(ns, start, k - 1))
  }

  function ListedAs(ns: Namespace, p: Pending): WalkEntry {
    WalkEntry(p.path, if p.inode in ns.inodes then Stat(ns.inodes[p.inode]) else FileStat(0, Unused, 0, 0, 0, 0, 0), p.depth)
  }

  function Listing(ns: Namespace, level: seq<Pending>): (listing: seq<WalkEntry>)
    ensures |listing| == |level|
    ensures forall i :: 0 <= i < |level| ==> listing[i] == ListedAs(ns, level[i])
  {
    seq(|level|, i requires 0 <= i < |level| => ListedAs(ns, level[i]))
  }

  /** The levels above level `n`, one after the other. */
  function LevelsAbove(ns: Namespace, start: Pending, n: nat): seq<WalkEntry> {
    if n == 0 then [] else LevelsAbove(ns, start, n - 1) + Listing(ns, Level(ns, start, n - 1))
  }

  lemma {:induction false} ChildrenOfConcat(ns: Namespace, left: seq<Pending>, right: seq<Pending>)
    ensures ChildrenOf(ns, left + right) == ChildrenOf(ns, left) + ChildrenOf(ns, right)
    decreases |left|
  {
    hide Children;
    if left == [] {
      assert left + right == right;
    } else {
      assert (left + right)[1..] == left[1..] + right;
      ChildrenOfConcat(ns, left[1..], right);
    }
  }

  lemma ChildrenNext(ns: Namespace, level: seq<Pending>, j: nat)
    requires j < |level|
    ensures ChildrenOf(ns, level[..j + 1]) == ChildrenOf(ns, level[..j]) + Children(ns, level[j])
    ensures Listing(ns, level[..j + 1]) == Listing(ns, level[..j]) + [ListedAs(ns, level[j])]
  {
    hide Children, ListedAs;
    assert level[..j + 1] == level[..j] + [level[j]];
    ChildrenOfConcat(ns, level[..j], [level[j]]);
    assert [level[j]][1..] == [];
    assert ChildrenOf(ns, [level[j]]) == Children(ns, level[j]) + [];
  }

  /** The queue in the middle of a level: what is left of it, then the children of what is done. */
  function Queue(ns: Namespace, start: Pending, k: nat, j: nat): seq<Pending>
    requires j <= |Level(ns, start, k)|
  {
    Level(ns, start, k)[j..] + ChildrenOf(ns, Level(ns, start, k)[..j])
  }

  function Done(ns: Namespace, start: Pending, k: nat, j: nat): seq<WalkEntry>
    requires j <= |Level(ns, start, k)|
  {
    LevelsAbove(ns, start, k) + Listing(ns, Level(ns, start, k)[..j])
  }

  lemma QueueStep(ns: Namespace, start: Pending, k: nat, j: nat)
    requires j < |Level(ns, start, k)|
    ensures Queue(ns, start, k, j) != [] && Queue(ns, start, k, j)[0] == Level(ns, start, k)[j]
    ensures Queue(ns, start, k, j + 1) == Queue(ns, start, k, j)[1..] + Children(ns, Level(ns, start, k)[j])
    ensures Done(ns, start, k, j + 1) == Done(ns, start, k, j) + [ListedAs(ns, Level(ns, start, k)[j])]
  {
    hide Children, ListedAs, Level;
    ChildrenNext(ns, Level(ns, start, k), j);
  }

  lemma NextLevel(ns: Namespace, start: Pending, k: nat)
    ensures var last := |Level(ns, start, k)|;
            && Queue(ns, start, k, last) == Level(ns, start, k + 1)
            && Queue(ns, start, k + 1, 0) == Level(ns, start, k + 1)
            && Done(ns, start, k, last) == Done(ns, start, k + 1, 0)
  {
    var level, next := Level(ns, start, k), Level(ns, start, k + 1);
    assert level[|level|..] == [] && level[..|level|] == level;
    assert next[0..] == next && next[..0] == [];
    assert [] + ChildrenOf(ns, level) == next && next + [] == next;
  }

  /** From the middle of a level on, a walk that succeeds lists the rest of the levels in turn. */
  lemma {:induction false} WalkListsLevels(ns: Namespace, start: Pending, k: nat, j: nat, visited: set<u64>, limits: Limits)
    requires j <= |Level(ns, start, k)|
    requires WalkFrom(ns, Queue(ns, start, k, j), visited, Done(ns, start, k, j), limits).Ok?
    ensures exists n :: Level(ns, start, n) == []
              && WalkFrom(ns, Queue(ns, start, k, j), visited, Done(ns, start, k, j), limits) == Ok(LevelsAbove(ns, start, n))
    decreases |Unvisited(ns, visited)|, |Queue(ns, start, k, j)|, if j == |Level(ns, start, k)| then 1 else 0
  {
    hide Level, Queue, Done, ListedAs, PendingEntries, LevelsAbove, Unvisited;
    if j == |Level(ns, start, k)| {
      NextLevel(ns, start, k);
      if Level(ns, start, k + 1) == [] {
        NothingBelow(ns, start, k + 1);
      } else {
        WalkListsLevels(ns, start, k + 1, 0, visited, limits);
      }
    } else {
      var p := Level(ns, start, k)[j];
      QueueStep(ns, start, k, j);
      ListedIs(ns, p);
      if ns.inodes[p.inode].inodeType != Directory {
        assert Children(ns, p) == [];
        assert Queue(ns, start, k, j)[1..] + [] == Queue(ns, start, k, j)[1..];
        WalkListsLevels(ns, start, k, j + 1, visited, limits);
      } else {
        FewerUnvisited(ns, visited, p.inode);
        WalkListsLevels(ns, start, k, j + 1, visited + {ns.inodes[p.inode].identifier}, limits);
      }
    }
  }

  lemma ListedIs(ns: Namespace, p: Pending)
    ensures p.inode in ns.inodes ==> ListedAs(ns, p) == WalkEntry(p.path, Stat(ns.inodes[p.inode]), p.depth)
  {
  }

  lemma NothingBelow(ns: Namespace, start: Pending, k: nat)
    requires Level(ns, start, k) == []
    ensures Done(ns, start, k, 0) == LevelsAbove(ns, start, k)
  {
    assert LevelsAbove(ns, start, k) + [] == LevelsAbove(ns, start, k);
  }

  // ----- Depths -----

  lemma {:induction false} EntriesDepth(entries: Entries, path: text, depth: nat)
    ensures forall i :: 0 <= i < |PendingEntries(entries, path, depth)| ==> PendingEntries(entries, path, depth)[i].depth == depth
  {
    if entries != [] {
      EntriesDepth(entries[1..], path, depth);
    }
  }

  lemma {:induction false} ChildrenDepth(ns: Namespace, level: seq<Pending>, depth: nat)
    requires forall i :: 0 <= i < |level| ==> level[i].depth == depth
    ensures forall i :: 0 <= i < |ChildrenOf(ns, level)| ==> ChildrenOf(ns, level)[i].depth == depth + 1
    decreases |level|
  {
    hide PendingEntries;
    if level != [] {
      var p := level[0];
      if Children(ns, p) != [] {
        EntriesDepth(ns.dirs[ns.inodes[p.inode].identifier], p.path, p.depth + 1);
      }
      ChildrenDepth(ns, level[1..], depth);
    }
  }

  lemma {:induction false} LevelDepth(ns: Namespace, start: Pending, k: nat)
    requires start.depth == 0
    ensures forall i :: 0 <= i < |Level(ns, start, k)| ==> Level(ns, start, k)[i].depth == k
  {
    hide ChildrenOf;
    if k > 0 {
      LevelDepth(ns, start, k - 1);
      ChildrenDepth(ns, Level(ns, start, k - 1), k - 1);
    }
  }

  ghost predicate DepthOrdered(output: seq<WalkEntry>, bound: nat) {
    && (forall i, j :: 0 <= i < j < |output| ==> output[i].depth <= output[j].depth)
    && (forall i :: 0 <= i < |output| ==> output[i].depth < bound)
  }

  lemma {:induction false} LevelsOrdered(ns: Namespace, start: Pending, n: nat)
    requires start.depth == 0
    ensures DepthOrdered(LevelsAbove(ns, start, n), n)
  {
    hide Level;
    if n > 0 {
      LevelsOrdered(ns, start, n - 1);
      LevelDepth(ns, start, n - 1);
    }
  }

  /** Every inode of every level is listed. */
  lemma {:induction false} LevelListed(ns: Namespace, start: Pending, k: nat, i: nat, n: nat)
    requires k < n && i < |Level(ns, start, k)|
    ensures ListedAs(ns, Level(ns, start, k)[i]) in LevelsAbove(ns, start, n)
  {
    hide Level, ListedAs;
    if k < n - 1 {
      LevelListed(ns, start, k, i, n - 1);
    } else {
      assert Listing(ns, Level(ns, start, k))[i] == ListedAs(ns, Level(ns, start, k)[i]);
    }
  }

  /** Below an empty level there is nothing. */
  lemma {:induction false} EmptyBelow(ns: Namespace, start: Pending, n: nat, k: nat)
    requires n <= k && Level(ns, start, n) == []
    ensures Level(ns, start, k) == []
  {
    if n < k {
      EmptyBelow(ns, start, n, k - 1);
    }
  }

  // ----- No directory twice -----

  ghost predicate DirectoriesOnce(output: seq<WalkEntry>) {
    forall i, j :: 0 <= i < j < |output| && output[i].stat.inodeType == Directory && output[j].stat.inodeType == Directory ==>
      output[i].stat.inode != output[j].stat.inode
  }

  ghost predicate VisitedAre(output: seq<WalkEntry>, visited: set<u64>) {
    forall id :: id in visited <==> exists i :: 0 <= i < |output| && output[i].stat.inodeType == Directory && output[i].stat.inode == id
  }

  lemma {:induction false} WalkEntersOnce(ns: Namespace, pending: seq<Pending>, visited: set<u64>, output: seq<WalkEntry>, limits: Limits)
    requires DirectoriesOnce(output) && VisitedAre(output, visited)
    requires WalkFrom(ns, pending, visited, output, limits).Ok?
    ensures DirectoriesOnce(WalkFrom(ns, pending, visited, output, limits).value)
    decreases |Unvisited(ns, visited)|, |pending|
  {
    hide PendingEntries, Unvisited, DirectoriesOnce, VisitedAre;
    if pending != [] {
      var current := pending[0];
      var inode := ns.inodes[current.inode];
      var entry := WalkEntry(current.path, Stat(inode), current.depth);
      ListOne(output, visited, entry);
      if inode.inodeType != Directory {
        WalkEntersOnce(ns, pending[1..], visited, output + [entry], limits);
      } else {
        FewerUnvisited(ns, visited, current.inode);
        var children := PendingEntries(ns.dirs[inode.identifier], current.path, current.depth + 1);
        WalkEntersOnce(ns, pending[1..] + children, visited + {inode.identifier}, output + [entry], limits);
      }
    }
  }

  lemma ListOne(output: seq<WalkEntry>, visited: set<u64>, entry: WalkEntry)
    requires DirectoriesOnce(output) && VisitedAre(output, visited)
    ensures entry.stat.inodeType != Directory ==> DirectoriesOnce(output + [entry]) && VisitedAre(output + [entry], visited)
    ensures entry.stat.inodeType == Directory && entry.stat.inode !in visited ==>
              DirectoriesOnce(output + [entry]) && VisitedAre(output + [entry], visited + {entry.stat.inode})
  {
    var grown := output + [entry];
    assert grown[|output|] == entry;
    assert forall i :: 0 <= i < |output| ==> grown[i] == output[i];
  }

  // ----- No path twice -----

  predicate Listable(path: text) {
    path != [] && (|path| == 1 || path[|path| - 1] != SLASH)
  }

  /** Names a table may hold: not empty and without a slash. */
  ghost predicate GoodTables(ns: Namespace) {
    forall d :: d in ns.dirs ==> GoodNames(ns.dirs[d]) && UniqueNames(ns.dirs[d])
  }

  predicate GoodNames(entries: Entries) {
    forall i :: 0 <= i < |entries| && !entries[i].deleted ==> entries[i].name != [] && SLASH !in entries[i].name
  }

  function Slashes(path: text): nat {
    if path == [] then 0 else Slashes(path[..|path| - 1]) + if path[|path| - 1] == SLASH then 1 else 0
  }

  lemma {:induction false} SlashesConcat(left: text, right: text)
    ensures Slashes(left + right) == Slashes(left) + Slashes(right)
    decreases |right|
  {
    if right == [] {
      assert left + right == left;
    } else {
      var last := |right| - 1;
      assert (left + right)[..|left + right| - 1] == left + right[..last];
      SlashesConcat(left, right[..last]);
    }
  }

  lemma {:induction false} NoSlashes(name: text)
    requires SLASH !in name
    ensures Slashes(name) == 0
    decreases |name|
  {
    if name != [] {
      NoSlashes(name[..|name| - 1]);
    }
  }

  /** How deep a path is, counted in slashes; the root path is above all others. */
  function Rank(path: text): nat {
    if |path| == 1 then 0 else Slashes(path)
  }

  lemma BelowRank(path: text, name: text)
    requires Listable(path) && (|path| == 1 ==> path == [SLASH]) && name != [] && SLASH !in name
    ensures Listable(Below(path, name)) && |Below(path, name)| > 1
    ensures Rank(Below(path, name)) == Rank(path) + 1
  {
    NoSlashes(name);
    if |path| > 1 {
      SlashesConcat(path, [SLASH]);
      SlashesConcat(path + [SLASH], name);
      assert Slashes([SLASH]) == 1 by {
        assert [SLASH][..0] == [];
      }
    } else {
      SlashesConcat([SLASH], name);
      assert [SLASH][..0] == [];
    }
  }

  /** A path below determines where it was found. */
  lemma BelowInjective(a: text, x: text, b: text, y: text)
    requires Listable(a) && Listable(b) && (|a| == 1 ==> a == [SLASH]) && (|b| == 1 ==> b == [SLASH])
    requires x != [] && y != [] && SLASH !in x && SLASH !in y
    requires Below(a, x) == Below(b, y)
    ensures a == b && x == y
  {
    var p, q := Headed(a), Headed(b);
    assert p + x == q + y;
    LastSlash(p, x, q, y);
    assert |p| == |q| && p == (p + x)[..|p|] == (q + y)[..|q|] == q;
    assert x == (p + x)[|p|..] == (q + y)[|q|..] == y;
    SameHead(a, b);
  }

  function Headed(path: text): text {
    if |path| > 1 && path[|path| - 1] != SLASH then path + [SLASH] else path
  }

  lemma SameHead(a: text, b: text)
    requires Listable(a) && Listable(b) && (|a| == 1 ==> a == [SLASH]) && (|b| == 1 ==> b == [SLASH])
    requires Headed(a) == Headed(b)
    ensures a == b
  {
    assert Headed(a)[..|Headed(a)| - 1] == Headed(b)[..|Headed(b)| - 1];
    if |a| > 1 {
      assert Headed(a)[..|Headed(a)| - 1] == a;
    }
    if |b| > 1 {
      assert Headed(b)[..|Headed(b)| - 1] == b;
    }
  }

  lemma LastSlash(p: text, x: text, q: text, y: text)
    requires p != [] && q != [] && p[|p| - 1] == SLASH && q[|q| - 1] == SLASH
    requires SLASH !in x && SLASH !in y && p + x == q + y
    ensures |p| == |q|
  {
    NotBeyond(p, x, q, y);
    NotBeyond(q, y, p, x);
  }

  lemma NotBeyond(p: text, x: text, q: text, y: text)
    requires q != [] && q[|q| - 1] == SLASH && SLASH !in x && p + x == q + y
    ensures |q| <= |p|
  {
    var whole := p + x;
    assert (q + y)[|q| - 1] == SLASH;
    forall i | |p| <= i < |whole| ensures whole[i] != SLASH {
      assert whole[i] == x[i - |p|];
    }
  }

  ghost predicate PathsDistinct(level: seq<Pending>) {
    forall i, j :: 0 <= i < j < |level| ==> level[i].path != level[j].path
  }

  ghost predicate Placed(p: Pending, base: nat, k: nat) {
    Listable(p.path) && (|p.path| == 1 ==> p.path == [SLASH]) && Rank(p.path) == base + k
  }

  ghost predicate AllPlaced(level: seq<Pending>, base: nat, k: nat) {
    forall i :: 0 <= i < |level| ==> Placed(level[i], base, k)
  }

  /** The entries of one table: a path each, made of the directory's path and the entry's name. */
  lemma {:induction false} EntryPaths(entries: Entries, path: text, depth: nat, i: nat) returns (e: nat)
    requires i < |PendingEntries(entries, path, depth)|
    ensures e < |entries| && !entries[e].deleted && !entries[e].IsDot()
    ensures PendingEntries(entries, path, depth)[i] == Pending(entries[e].inode, Below(path, entries[e].name), depth)
    decreases |entries|
  {
    hide Below;
    if entries[0].deleted || entries[0].IsDot() {
      var deeper := EntryPaths(entries[1..], path, depth, i);
      e := deeper + 1;
    } else if i == 0 {
      e := 0;
    } else {
      var deeper := EntryPaths(entries[1..], path, depth, i - 1);
      e := deeper + 1;
    }
  }

  lemma {:induction false} EntriesDistinct(entries: Entries, path: text, depth: nat)
    requires GoodNames(entries) && UniqueNames(entries) && Listable(path) && (|path| == 1 ==> path == [SLASH])
    ensures PathsDistinct(PendingEntries(entries, path, depth))
    decreases |entries|
  {
    hide Below, Listable;
    if entries != [] {
      var rest := entries[1..];
      assert forall i :: 0 <= i < |rest| ==> rest[i] == entries[i + 1];
      EntriesDistinct(rest, path, depth);
      var others := PendingEntries(rest, path, depth);
      if !entries[0].deleted && !entries[0].IsDot() {
        forall j | 0 <= j < |others| ensures others[j].path != Below(path, entries[0].name) {
          var e := EntryPaths(rest, path, depth, j);
          assert entries[0].Key() != entries[e + 1].Key();
          if Below(path, entries[e + 1].name) == Below(path, entries[0].name) {
            BelowInjective(path, entries[e + 1].name, path, entries[0].name);
          }
        }
      }
    }
  }

  lemma ChildPlaced(ns: Namespace, p: Pending, base: nat, k: nat, i: nat) returns (name: text)
    requires GoodTables(ns) && Placed(p, base, k) && i < |Children(ns, p)|
    ensures name != [] && SLASH !in name && Children(ns, p)[i].path == Below(p.path, name)
    ensures Placed(Children(ns, p)[i], base, k + 1)
  {
    hide Below, Rank, Listable, UniqueNames;
    var entries := ns.dirs[ns.inodes[p.inode].identifier];
    var e := EntryPaths(entries, p.path, p.depth + 1, i);
    assert GoodNames(entries);
    name := entries[e].name;
    BelowRank(p.path, name);
  }

  lemma ChildrenDistinct(ns: Namespace, p: Pending, base: nat, k: nat)
    requires GoodTables(ns) && Placed(p, base, k)
    ensures PathsDistinct(Children(ns, p))
  {
    hide PendingEntries, GoodNames, UniqueNames, Listable, Rank;
    if Children(ns, p) != [] {
      EntriesDistinct(ns.dirs[ns.inodes[p.inode].identifier], p.path, p.depth + 1);
    }
  }

  /** Every child of a level is the child of one of its members. */
  lemma {:induction false} ChildOfSome(ns: Namespace, level: seq<Pending>, i: nat) returns (j: nat, c: nat)
    requires i < |ChildrenOf(ns, level)|
    ensures j < |level| && c < |Children(ns, level[j])| && ChildrenOf(ns, level)[i] == Children(ns, level[j])[c]
    decreases |level|
  {
    hide Children;
    var first := Children(ns, level[0]);
    if i < |first| {
      j, c := 0, i;
    } else {
      var deeper, c' := ChildOfSome(ns, level[1..], i - |first|);
      j, c := deeper + 1, c';
    }
  }

  lemma {:induction false} NextPlaced(ns: Namespace, level: seq<Pending>, base: nat, k: nat)
    requires GoodTables(ns) && AllPlaced(level, base, k) && PathsDistinct(level)
    ensures AllPlaced(ChildrenOf(ns, level), base, k + 1) && PathsDistinct(ChildrenOf(ns, level))
    decreases |level|
  {
    hide Children, Placed, GoodTables;
    if level != [] {
      var rest := level[1..];
      assert forall i :: 0 <= i < |rest| ==> rest[i] == level[i + 1];
      NextPlaced(ns, rest, base, k);
      var first, others := Children(ns, level[0]), ChildrenOf(ns, rest);
      ChildrenDistinct(ns, level[0], base, k);
      forall i | 0 <= i < |first| ensures Placed(first[i], base, k + 1) {
        var _ := ChildPlaced(ns, level[0], base, k, i);
      }
      forall i, m | 0 <= i < |first| && 0 <= m < |others| ensures first[i].path != others[m].path {
        ApartBelow(ns, level, base, k, i, m);
      }
      assert ChildrenOf(ns, level) == first + others;
      DistinctConcat(first, others);
    }
  }

  lemma ApartBelow(ns: Namespace, level: seq<Pending>, base: nat, k: nat, i: nat, m: nat)
    requires GoodTables(ns) && level != [] && AllPlaced(level, base, k) && PathsDistinct(level)
    requires i < |Children(ns, level[0])| && m < |ChildrenOf(ns, level[1..])|
    ensures Children(ns, level[0])[i].path != ChildrenOf(ns, level[1..])[m].path
  {
    hide Children, GoodTables, Below;
    var x := ChildPlaced(ns, level[0], base, k, i);
    var j, c := ChildOfSome(ns, level[1..], m);
    assert level[1..][j] == level[j + 1];
    var y := ChildPlaced(ns, level[j + 1], base, k, c);
    assert Placed(level[0], base, k) && Placed(level[j + 1], base, k) && level[0].path != level[j + 1].path;
    if Below(level[0].path, x) == Below(level[j + 1].path, y) {
      BelowInjective(level[0].path, x, level[j + 1].path, y);
    }
  }

  lemma DistinctConcat(a: seq<Pending>, b: seq<Pending>)
    requires PathsDistinct(a) && PathsDistinct(b)
    requires forall i, m :: 0 <= i < |a| && 0 <= m < |b| ==> a[i].path != b[m].path
    ensures PathsDistinct(a + b)
  {
  }

  lemma {:induction false} LevelPlaced(ns: Namespace, start: Pending, k: nat)
    requires GoodTables(ns) && Placed(start, Rank(start.path), 0)
    ensures AllPlaced(Level(ns, start, k), Rank(start.path), k) && PathsDistinct(Level(ns, start, k))
  {
    hide GoodTables, Placed, ChildrenOf;
    if k > 0 {
      LevelPlaced(ns, start, k - 1);
      NextPlaced(ns, Level(ns, start, k - 1), Rank(start.path), k - 1);
    }
  }

  ghost predicate PathsOnce(output: seq<WalkEntry>) {
    forall i, j :: 0 <= i < j < |output| ==> output[i].path != output[j].path
  }

  ghost predicate RanksBelow(output: seq<WalkEntry>, bound: nat) {
    forall i :: 0 <= i < |output| ==> Rank(output[i].path) < bound
  }

  lemma {:induction false} LevelsOnce(ns: Namespace, start: Pending, n: nat)
    requires GoodTables(ns) && Placed(start, Rank(start.path), 0)
    ensures PathsOnce(LevelsAbove(ns, start, n)) && RanksBelow(LevelsAbove(ns, start, n), Rank(start.path) + n)
  {
    hide GoodTables, Level, Rank, Listable;
    if n > 0 {
      LevelsOnce(ns, start, n - 1);
      LevelPlaced(ns, start, n - 1);
      ListingOnce(ns, LevelsAbove(ns, start, n - 1), Level(ns, start, n - 1), Rank(start.path), n - 1);
    }
  }

  lemma ListingOnce(ns: Namespace, above: seq<WalkEntry>, level: seq<Pending>, base: nat, k: nat)
    requires PathsOnce(above) && RanksBelow(above, base + k) && AllPlaced(level, base, k) && PathsDistinct(level)
    ensures PathsOnce(above + Listing(ns, level)) && RanksBelow(above + Listing(ns, level), base + k + 1)
  {
    hide Rank, Listable;
    var listing := Listing(ns, level);
    forall i | 0 <= i < |level| ensures listing[i].path == level[i].path && Rank(listing[i].path) == base + k {
      assert Placed(level[i], base, k);
    }
    var output := above + listing;
    forall i, j | 0 <= i < j < |output| ensures output[i].path != output[j].path {
      if i < |above| && j >= |above| {
        assert Rank(output[i].path) < base + k == Rank(listing[j - |above|].path);
      }
    }
  }

  // ----- The start of a walk -----

  predicate AllPlain(components: Components) {
    forall i :: 0 <= i < |components| ==> Plain(components[i])
  }

  lemma AdvancePlain(ns: Namespace, c: Cursor, follow: bool, limits: Limits, budget: nat)
    requires c.pending != [] && AllPlain(c.pending) && AllPlain(c.canonical) && Advance(ns, c, follow, limits, budget).Ok?
    ensures var next := Advance(ns, c, follow, limits, budget).value;
            AllPlain(next.pending) && AllPlain(next.canonical)
  {
    hide Namespace.Find, Split, Plain;
    var next := Advance(ns, c, follow, limits, budget).value;
    if next.followed != c.followed {
      var id := ns.Find(c.current, c.pending[0]).value.inode;
      SplitGood(ns.inodes[id].symlinkTarget, limits);
    }
  }

  lemma {:induction false} ResolvePlain(ns: Namespace, c: Cursor, follow: bool, limits: Limits, budget: nat)
    requires Bounded(c, limits) && (limits.maxSymlinkDepth == TWO32 - 1 ==> budget == 0)
    requires AllPlain(c.pending) && AllPlain(c.canonical) && ResolveFrom(ns, c, follow, limits, budget).Ok?
    ensures AllPlain(ResolveFrom(ns, c, follow, limits, budget).value.canonical)
    decreases limits.maxSymlinkDepth - c.followed, |c.pending|
  {
    hide Advance, Bounded, AllPlain;
    if c.pending != [] {
      AdvancePlain(ns, c, follow, limits, budget);
      AdvanceProgress(ns, c, follow, limits, budget);
      ResolvePlain(ns, Advance(ns, c, follow, limits, budget).value, follow, limits, budget);
    }
  }

  lemma {:induction false} JoinEnds(components: Components)
    requires AllPlain(components) && components != []
    ensures Join(components) != [] && Join(components)[|Join(components)| - 1] != SLASH
    decreases |components|
  {
    var last := components[|components| - 1];
    assert Plain(last) && last[|last| - 1] in last;
  }

  lemma RenderListable(components: Components)
    requires AllPlain(components)
    ensures Listable(Render(components)) && (|Render(components)| == 1 ==> Render(components) == [SLASH])
  {
    if components != [] {
      JoinEnds(components);
    }
  }

  lemma StartListable(ns: Namespace, path: text, limits: Limits)
    requires Resolve(ns, path, ns.root, true, limits).Ok?
    ensures var canonical := Resolve(ns, path, ns.root, true, limits).value.canonical;
            Listable(canonical) && (|canonical| == 1 ==> canonical == [SLASH])
  {
    SplitGood(path, limits);
    var c := Start(ns, path, ns.root, Split(path, limits).value);
    ResolvePlain(ns, c, true, limits, ExpansionLimit(limits));
    hide ResolveFrom, Split, Listable, Render, AllPlain;
    RenderListable(ResolveCursor(ns, path, ns.root, true, limits).value.canonical);
  }

  lemma VerifiedNames(dirs: Dirs, inodes: map<u64, Inode>, root: u64, limits: Limits)
    requires VerifiedTables(dirs, inodes, root, limits)
    ensures forall d :: d in dirs ==> GoodNames(dirs[d]) && UniqueNames(dirs[d])
  {
    hide Directories.Find, UniqueNames, Total;
    forall d | d in dirs ensures GoodNames(dirs[d]) && UniqueNames(dirs[d]) {
      assert VerifiedDirectory(dirs, d, inodes, limits);
      assert forall i :: 0 <= i < |dirs[d]| ==> dirs[d][i].Validate(limits).Ok?;
    }
  }

  function StartOf(ns: Namespace, path: text, limits: Limits): Pending
    requires Resolve(ns, path, ns.root, true, limits).Ok?
  {
    var at := Resolve(ns, path, ns.root, true, limits).value;
    Pending(at.inode, at.canonical, 0)
  }

  /** A walk over verified tables that succeeds lists the levels below its start one after the other,
      down to the first empty one: every path made of active entries is there exactly once, shallower
      ones first, and no directory is entered twice. */
  lemma WalkListsEverything(ns: Namespace, path: text, limits: Limits)
    requires VerifiedTables(ns.dirs, ns.inodes, ns.root, limits) && Walk(ns, path, limits).Ok?
    ensures Resolve(ns, path, ns.root, true, limits).Ok?
    ensures var start, output := StartOf(ns, path, limits), Walk(ns, path, limits).value;
            && (exists n :: Level(ns, start, n) == [] && output == LevelsAbove(ns, start, n) && DepthOrdered(output, n))
            && (forall k: nat, i: nat :: i < |Level(ns, start, k)| ==> ListedAs(ns, Level(ns, start, k)[i]) in output)
            && PathsOnce(output) && DirectoriesOnce(output)
  {
    hide Resolve, WalkFrom, VerifiedTables, GoodNames, UniqueNames, LevelsAbove, ListedAs, DepthOrdered, PathsOnce, RanksBelow, Listable, Rank;
    var start := StartOf(ns, path, limits);
    StartListable(ns, path, limits);
    VerifiedNames(ns.dirs, ns.inodes, ns.root, limits);
    StartsQueue(ns, start);
    WalkListsLevels(ns, start, 0, 0, {}, limits);
    var output := Walk(ns, path, limits).value;
    var n :| Level(ns, start, n) == [] && output == LevelsAbove(ns, start, n);
    hide Level;
    LevelsOrdered(ns, start, n);
    LevelsOnce(ns, start, n);
    WalkEntersOnce(ns, [start], {}, [], limits);
    forall k: nat, i: nat | i < |Level(ns, start, k)| ensures ListedAs(ns, Level(ns, start, k)[i]) in output {
      if k < n {
        LevelListed(ns, start, k, i, n);
      } else {
        EmptyBelow(ns, start, n, k);
      }
    }
  }

  lemma StartsQueue(ns: Namespace, start: Pending)
    ensures Queue(ns, start, 0, 0) == [start] && Done(ns, start, 0, 0) == []
  {
    assert [start][..0] == [];
  }
}
