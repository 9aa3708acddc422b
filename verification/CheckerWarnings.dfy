/** The checker's warnings about the names of inodes and the targets of links, exactly, and those a run gets. */
module CheckerWarnings {
  import opened Base
  import opened Extents
  import opened Allocators
  import opened Inodes
  import opened InodeTables
  import opened Directories
  import opened Paths
  import opened Trees
  import Journals
  import opened FsModel
  import opened FsInvariant
  import opened FsRemove
  import opened FsNodes
  import opened FsRuns
  import opened FsRooted
  import opened Validity
  import opened Checkers
  import opened CheckerTheorems

  // ----- Counting -----

  /** The places of the active entries, dots included, that lead to an inode, in the tables of directories. */
  function Places(core: Core, id: u64): set<(u64, int)> {
    set d, i | d in core.dirs && 0 <= i < |core.dirs[d]| && PlaceAt(core, d, i, id) :: (d, i)
  }

  predicate PlaceAt(core: Core, d: u64, i: int, id: u64) {
    && d in core.dirs && 0 <= i < |core.dirs[d]| && !core.dirs[d][i].deleted && core.dirs[d][i].inode == id
    && d in core.table.inodes && core.table.inodes[d].inodeType == Directory
  }

  /** Those among the first `n` entries of one table. */
  function PlacesIn(entries: Entries, d: u64, id: u64, from: int): set<(u64, int)> {
    set i | 0 <= i < |entries| && !entries[i].deleted && entries[i].inode == id :: (d, Moved(i, from))
  }

  function Moved(i: int, from: int): int {
    i + from
  }

  lemma {:induction false} ObservedCounts(entries: Entries, d: u64, id: u64, from: int)
    ensures Observed(entries, id) == |PlacesIn(entries, d, id, from)|
    decreases |entries|
  {
    if entries == [] {
      assert PlacesIn(entries, d, id, from) == {};
    } else {
      var rest := entries[1..];
      ObservedCounts(rest, d, id, from + 1);
      FirstPlace(entries, d, id, from);
    }
  }

  lemma FirstPlace(entries: Entries, d: u64, id: u64, from: int)
    requires entries != []
    ensures PlacesIn(entries, d, id, from) ==
            (if !entries[0].deleted && entries[0].inode == id then {(d, from)} else {}) + PlacesIn(entries[1..], d, id, from + 1)
    ensures (d, from) !in PlacesIn(entries[1..], d, id, from + 1)
  {
    var rest := entries[1..];
    forall p: u64, k: int
      ensures (p, k) in PlacesIn(entries, d, id, from) <==>
              (p, k) in (if !entries[0].deleted && entries[0].inode == id then {(d, from)} else {}) + PlacesIn(rest, d, id, from + 1)
    {
      PlacesMean(entries, d, id, from, p, k);
      PlacesMean(rest, d, id, from + 1, p, k);
    }
    PlacesMean(rest, d, id, from + 1, d, from);
  }

  lemma PlacesMean(entries: Entries, d: u64, id: u64, from: int, p: u64, k: int)
    ensures (p, k) in PlacesIn(entries, d, id, from) <==>
            p == d && 0 <= k - from < |entries| && !entries[k - from].deleted && entries[k - from].inode == id
  {
    if p == d && 0 <= k - from < |entries| && !entries[k - from].deleted && entries[k - from].inode == id {
      assert Moved(k - from, from) == k;
    }
  }

  /** The places in the tables under some keys. */
  function PlacesUnder(core: Core, keys: seq<u64>, id: u64): set<(u64, int)> {
    set p | p in Places(core, id) && p.0 in keys
  }

  function PlacesHere(core: Core, d: u64, id: u64): set<(u64, int)>
    requires d in core.dirs
  {
    if HasDirectoryInode(d, core.table.inodes) then PlacesIn(core.dirs[d], d, id, 0) else {}
  }

  lemma HereMeans(core: Core, d: u64, id: u64, p: u64, k: int)
    requires d in core.dirs
    ensures (p, k) in PlacesHere(core, d, id) <==> p == d && PlaceAt(core, p, k, id)
  {
    hide PlacesIn;
    PlacesMean(core.dirs[d], d, id, 0, p, k);
  }

  lemma UnderMeans(core: Core, keys: seq<u64>, id: u64, p: u64, k: int)
    ensures (p, k) in PlacesUnder(core, keys, id) <==> p in keys && PlaceAt(core, p, k, id)
  {
    hide Places, PlaceAt;
    PlaceMeans(core, id, p, k);
  }

  lemma UnderFirst(core: Core, keys: seq<u64>, id: u64)
    requires keys != [] && (forall k :: k in keys ==> k in core.dirs) && Increasing(keys)
    ensures PlacesUnder(core, keys, id) == PlacesHere(core, keys[0], id) + PlacesUnder(core, keys[1..], id)
    ensures PlacesHere(core, keys[0], id) !! PlacesUnder(core, keys[1..], id)
  {
    hide PlacesUnder, PlacesHere, PlaceAt;
    var d, rest := keys[0], keys[1..];
    assert keys == [d] + rest && d !in rest;
    var whole, first, others := PlacesUnder(core, keys, id), PlacesHere(core, d, id), PlacesUnder(core, rest, id);
    forall p: (u64, int) ensures p in whole <==> p in first || p in others ensures !(p in first && p in others) {
      UnderMeans(core, keys, id, p.0, p.1);
      UnderMeans(core, rest, id, p.0, p.1);
      HereMeans(core, d, id, p.0, p.1);
    }
  }

  lemma {:induction false} ObservedInCounts(core: Core, keys: seq<u64>, id: u64)
    requires (forall k :: k in keys ==> k in core.dirs) && Increasing(keys)
    ensures ObservedIn(core.dirs, keys, core.table.inodes, id) == |PlacesUnder(core, keys, id)|
    decreases |keys|
  {
    hide Observed, PlacesUnder, PlacesIn;
    if keys == [] {
      NoneUnder(core, id);
    } else {
      UnderFirst(core, keys, id);
      ObservedInCounts(core, keys[1..], id);
      ObservedCounts(core.dirs[keys[0]], keys[0], id, 0);
    }
  }

  lemma NoneUnder(core: Core, id: u64)
    ensures PlacesUnder(core, [], id) == {}
  {
  }

  lemma PlaceMeans(core: Core, id: u64, d: u64, i: int)
    ensures (d, i) in Places(core, id) <==> PlaceAt(core, d, i, id)
  {
  }

  /** What the checker tallies for an inode is the number of places. */
  lemma TallyIs(core: Core, id: u64)
    ensures ObservedIn(core.dirs, SortedKeys(core.dirs.Keys), core.table.inodes, id) == |Places(core, id)|
  {
    hide Places, SortedKeys, ObservedIn;
    var keys := SortedKeys(core.dirs.Keys);
    ObservedInCounts(core, keys, id);
    forall p | p in Places(core, id) ensures p.0 in keys {
      PlaceMeans(core, id, p.0, p.1);
    }
    assert PlacesUnder(core, keys, id) == Places(core, id);
  }

  /** Some entry that is not a dot leads to the inode. */
  ghost predicate HasPlace(core: Core, id: u64) {
    exists d: u64, i: int :: PlaceAt(core, d, i, id) && core.dirs[d][i].name != DOT && core.dirs[d][i].name != DOTDOT
  }

  lemma NamedIs(core: Core, id: u64)
    ensures NamedIn(core.dirs, SortedKeys(core.dirs.Keys), core.table.inodes, id) <==> HasPlace(core, id)
  {
    hide SortedKeys;
    var keys := SortedKeys(core.dirs.Keys);
    if HasPlace(core, id) {
      var d: u64, i: int :| PlaceAt(core, d, i, id) && core.dirs[d][i].name != DOT && core.dirs[d][i].name != DOTDOT;
      assert d in keys;
      assert Named(core.dirs[d], id);
    }
    if NamedIn(core.dirs, keys, core.table.inodes, id) {
      var k :| 0 <= k < |keys| && HasDirectoryInode(keys[k], core.table.inodes) && Named(core.dirs[keys[k]], id);
      var d := keys[k];
      var i :| 0 <= i < |core.dirs[d]| && !core.dirs[d][i].deleted && !core.dirs[d][i].IsDot() && core.dirs[d][i].inode == id;
      assert PlaceAt(core, d, i, id);
    }
  }

  // ----- In the report -----

  predicate NameCode(code: IssueCode) {
    code == InvalidLinkCount || code == OrphanInode || code == InvalidSymlink
  }

  lemma {:induction false} OnlyUnreferenced(allocation: Allocation, referenced: set<u64>, from: nat, issue: Issue)
    requires NameCode(issue.code)
    ensures issue !in UnreferencedIssues(allocation, referenced, from)
    decreases allocation.count - from
  {
    if from < allocation.count {
      OnlyUnreferenced(allocation, referenced, from + 1, issue);
    }
  }

  lemma InodeNames(core: Core, inode: Inode, referenced: set<u64>, limits: Limits, issue: Issue)
    requires NameCode(issue.code) && core.superblock.blockSize > 0
    ensures issue in InodeIssues(core, inode, referenced, limits) <==> issue in NamesOf(core, inode, limits)
  {
    hide Inode.Validate, PhysicalBlocks, BlockIssues, ObservedIn, NamedIn, SortedKeys, NormalizePath, NameIssues;
    if PhysicalBlocks(inode, core.superblock, limits).Ok? {
      ElsewhereInBlocks(BlockKeys(PhysicalBlocks(inode, core.superblock, limits).value), inode.identifier, referenced, core.allocation.used, issue);
    }
  }

  function NamesOf(core: Core, inode: Inode, limits: Limits): Report {
    var keys := SortedKeys(core.dirs.Keys);
    NameIssues(inode, ObservedIn(core.dirs, keys, core.table.inodes, inode.identifier),
               NamedIn(core.dirs, keys, core.table.inodes, inode.identifier), core.superblock.rootInode, limits)
  }

  lemma NamesAre(core: Core, inode: Inode, limits: Limits, issue: Issue)
    ensures issue in NamesOf(core, inode, limits) <==>
            && issue.severity == Warning && issue.inode == inode.identifier && issue.block == 0
            && ((issue.code == InvalidLinkCount && inode.identifier != core.superblock.rootInode
                 && inode.linkCount != ExpectedLinks(inode, |Places(core, inode.identifier)|))
                || (issue.code == OrphanInode && inode.identifier != core.superblock.rootInode && !HasPlace(core, inode.identifier))
                || (issue.code == InvalidSymlink && inode.inodeType == SymbolicLink && Split(inode.symlinkTarget, limits).Err?))
  {
    hide Places, SortedKeys, ObservedIn, NamedIn, HasPlace, Split, Lexical, Render;
    TallyIs(core, inode.identifier);
    NamedIs(core, inode.identifier);
  }

  lemma {:induction false} InodesNames(core: Core, keys: seq<u64>, referenced: set<u64>, limits: Limits, issue: Issue)
    requires NameCode(issue.code) && core.superblock.blockSize > 0 && forall k :: k in keys ==> k in core.table.inodes
    ensures issue in InodesIssues(core, keys, referenced, limits) <==>
            exists k :: k in keys && issue in NamesOf(core, core.table.inodes[k], limits)
    decreases |keys|
  {
    hide InodeIssues, Referenced, NamesOf;
    if keys != [] {
      var inode := core.table.inodes[keys[0]];
      assert keys == [keys[0]] + keys[1..];
      InodeNames(core, inode, referenced, limits, issue);
      InodesNames(core, keys[1..], Referenced(inode, core.superblock, referenced, limits), limits, issue);
    }
  }

  /** The warnings about names, exactly: an inode other than the root whose link count is not the number of
      active entries that lead to it, or for a directory that number or two if it is less; one that no
      entry but the dots leads to; and a symbolic link with a target that is no path. */
  lemma WarningsExactly(core: Core, journal: Journals.Log, id: u64, limits: Limits)
    requires SuperblockSound(core.superblock, limits)
    requires forall k :: k in core.table.inodes ==> core.table.inodes[k].identifier == k
    ensures var report := Check(core, journal, limits);
            && (Issue(Warning, InvalidLinkCount, id, 0) in report <==>
                  && id in core.table.inodes && id != core.superblock.rootInode
                  && var entries := |Places(core, id)|;
                     core.table.inodes[id].linkCount !=
                       if core.table.inodes[id].inodeType == Directory && entries < 2 then 2 else entries)
            && (Issue(Warning, OrphanInode, id, 0) in report <==>
                  id in core.table.inodes && id != core.superblock.rootInode && !HasPlace(core, id))
            && (Issue(Warning, InvalidSymlink, id, 0) in report <==>
                  && id in core.table.inodes && core.table.inodes[id].inodeType == SymbolicLink
                  && Split(core.table.inodes[id].symlinkTarget, limits).Err?)
  {
    hide SuperblockSound, Places, HasPlace, Split, NamesOf, Check;
    ReportNames(core, journal, Issue(Warning, InvalidLinkCount, id, 0), limits);
    ReportNames(core, journal, Issue(Warning, OrphanInode, id, 0), limits);
    ReportNames(core, journal, Issue(Warning, InvalidSymlink, id, 0), limits);
    if id in core.table.inodes {
      var inode := core.table.inodes[id];
      NamesAre(core, inode, limits, Issue(Warning, InvalidLinkCount, id, 0));
      NamesAre(core, inode, limits, Issue(Warning, OrphanInode, id, 0));
      NamesAre(core, inode, limits, Issue(Warning, InvalidSymlink, id, 0));
    }
  }

  lemma ReportNames(core: Core, journal: Journals.Log, issue: Issue, limits: Limits)
    requires SuperblockSound(core.superblock, limits) && NameCode(issue.code)
    requires forall k :: k in core.table.inodes ==> core.table.inodes[k].identifier == k
    ensures issue in Check(core, journal, limits) <==>
            issue.inode in core.table.inodes && issue in NamesOf(core, core.table.inodes[issue.inode], limits)
  {
    SoundBlockSize(core.superblock, limits);
    hide SuperblockSound, DirectoryIssues, InodesIssues, UnreferencedIssues, JournalIssues, ReferencedBy, NamesOf, SortedKeys;
    var keys := SortedKeys(core.table.inodes.Keys);
    ElsewhereInDirectories(core.dirs, SortedKeys(core.dirs.Keys), core.table.inodes, limits, issue);
    InodesNames(core, keys, {}, limits, issue);
    OnlyUnreferenced(core.allocation, ReferencedBy(core, keys, {}, limits), 0, issue);
    ElsewhereInJournal(journal.records, 0, {}, issue);
    forall k | k in keys && issue in NamesOf(core, core.table.inodes[k], limits) ensures k == issue.inode {
      NamesAre(core, core.table.inodes[k], limits, issue);
    }
  }

  // ----- In a run -----

  /** The directories whose ".." leads to `id`. */
  function Subdirectories(dirs: Dirs, id: u64): set<u64> {
    set d | d in dirs && |dirs[d]| >= 2 && Up(dirs, d) == id
  }

  function ParentPlaces(dirs: Dirs, id: u64): set<(u64, int)> {
    set d | d in Subdirectories(dirs, id) :: (d, 1)
  }

  lemma ParentMeans(dirs: Dirs, id: u64, d: u64, i: int)
    ensures (d, i) in ParentPlaces(dirs, id) <==> i == 1 && d in dirs && |dirs[d]| >= 2 && Up(dirs, d) == id
  {
  }

  /** In a tree in order an inode is led to by its names, by its own "." if it is a directory, and by the
      ".." of the directories in it. */
  lemma TreePlaces(core: Core, id: u64, limits: Limits)
    requires TreeOk(core.Names(), limits) && id in core.table.inodes
    ensures Places(core, id) ==
            Links(core.dirs, id) + (if id in core.dirs then {(id, 0)} else {}) + ParentPlaces(core.dirs, id)
    ensures (id, 0) !in Links(core.dirs, id) && (id, 0) !in ParentPlaces(core.dirs, id) && Links(core.dirs, id) !! ParentPlaces(core.dirs, id)
  {
    hide TreeOk, Links, Places, ParentPlaces, Up;
    var places, links, parents := Places(core, id), Links(core.dirs, id), ParentPlaces(core.dirs, id);
    forall p: (u64, int)
      ensures p in places <==> p in links || (id in core.dirs && p == (id, 0)) || p in parents
      ensures !(p in links && p in parents)
    {
      LinkMeans(core.dirs, id, p.0, p.1);
      PlaceMeans(core, id, p.0, p.1);
      ParentMeans(core.dirs, id, p.0, p.1);
      if p.0 in core.dirs {
        TableStart(core.Names(), p.0, limits);
      }
    }
    LinkMeans(core.dirs, id, id, 0);
    ParentMeans(core.dirs, id, id, 0);
  }

  lemma TableStart(ns: Namespace, d: u64, limits: Limits)
    requires TreeOk(ns, limits) && d in ns.dirs
    ensures |ns.dirs[d]| >= 2 && !ns.dirs[d][0].deleted && ns.dirs[d][0].inode == d && !ns.dirs[d][1].deleted
    ensures ns.dirs[d][1].inode == Up(ns.dirs, d) && ns.IsDirectory(d)
  {
    assert TableOk(d, ns.dirs[d], limits);
    TreeRoot(ns, limits);
  }

  lemma {:induction false} TreeCount(core: Core, id: u64, limits: Limits)
    requires TreeOk(core.Names(), limits) && LinksOk(core.Names()) && id in core.table.inodes && id != core.superblock.rootInode
    ensures core.table.inodes[id].inodeType == Directory ==> core.table.inodes[id].linkCount == 2
    ensures core.table.inodes[id].inodeType == Directory ==> |Places(core, id)| == 2 + |ParentPlaces(core.dirs, id)|
    ensures core.table.inodes[id].inodeType != Directory ==> |Places(core, id)| == core.table.inodes[id].linkCount
    ensures Links(core.dirs, id) != {}
  {
    var ns := core.Names();
    TreeRoot(ns, limits);
    assert LinkCountOk(ns, id);
    hide LinksOk, Links, Places;
    TreePlaces(core, id, limits);
    if core.table.inodes[id].inodeType != Directory {
      assert ParentPlaces(core.dirs, id) == {} by {
        forall d | d in core.dirs && |core.dirs[d]| >= 2 ensures Up(core.dirs, d) != id {
          TreeParent(ns, limits, d);
        }
      }
      hide TreeOk;
      assert Places(core, id) == Links(core.dirs, id);
    } else {
      hide TreeOk;
      var here := Links(core.dirs, id) + {(id, 0)};
      assert |here| == 2;
      assert here !! ParentPlaces(core.dirs, id);
      assert Places(core, id) == here + ParentPlaces(core.dirs, id);
    }
  }

  lemma SubdirectoryPlaces(dirs: Dirs, id: u64)
    ensures ParentPlaces(dirs, id) == {} <==> Subdirectories(dirs, id) == {}
  {
    forall d | d in Subdirectories(dirs, id) ensures (d, 1 as int) in ParentPlaces(dirs, id) {
    }
  }

  /** In a run no inode is reported as orphaned. A link count is reported exactly for the directories, other
      than the root, that another directory has as its parent: the checker counts the ".." of those, and
      the operations do not. And a symbolic link is reported exactly if its target, which creation does not
      split, is no path. */
  lemma RunWarnings(fs: Fs, id: u64, limits: Limits)
    requires Safe(fs, limits)
    ensures var core := fs.core;
            var report := Check(core, fs.journal, limits);
            && Issue(Warning, OrphanInode, id, 0) !in report
            && (Issue(Warning, InvalidLinkCount, id, 0) in report <==>
                  id in core.dirs && id != core.superblock.rootInode && Subdirectories(core.dirs, id) != {})
            && (Issue(Warning, InvalidSymlink, id, 0) in report <==>
                  && id in core.table.inodes && core.table.inodes[id].inodeType == SymbolicLink
                  && Split(core.table.inodes[id].symlinkTarget, limits).Err?)
  {
    hide CoreInv, Safe, TreeOk, LinksOk, OwnershipOk, StillOk, EntriesOk, Allocation.Valid, Table.Valid, SuperblockSound, Check, Places, HasPlace, Split, Links, ParentPlaces, Subdirectories;
    var core := fs.core;
    SafeParts(fs, limits);
    InvPieces(core, limits);
    RunSuperblock(core, limits);
    RunKeys(core.table, limits);
    TreeRoot(core.Names(), limits);
    WarningsExactly(core, fs.journal, id, limits);
    if id in core.table.inodes && id != core.superblock.rootInode {
      TreeCount(core, id, limits);
      LinkIsPlace(core, id, limits);
      SubdirectoryPlaces(core.dirs, id);
    }
  }

  lemma RunKeys(table: Table, limits: Limits)
    requires table.Valid(limits)
    ensures forall k :: k in table.inodes ==> table.inodes[k].identifier == k
  {
  }

  lemma LinkIsPlace(core: Core, id: u64, limits: Limits)
    requires TreeOk(core.Names(), limits) && Links(core.dirs, id) != {}
    ensures HasPlace(core, id)
  {
    hide Links;
    var p :| p in Links(core.dirs, id);
    LinkMeans(core.dirs, id, p.0, p.1);
    TableStart(core.Names(), p.0, limits);
    assert TableOk(p.0, core.dirs[p.0], limits);
    assert PlaceAt(core, p.0, p.1, id);
  }
}
