/** The directory tree: dot entries, parent pointers, unique names and link counts. */
module Trees {
  import opened Base
  import opened Inodes
  import opened Directories
  import opened Paths
  import opened PathTheorems

  // ----- One table -----

  /** "." and ".." first, then names: unique among the active ones, tombstones before them. */
  ghost predicate TableOk(d: u64, entries: Entries, limits: Limits) {
    && |entries| >= 2
    && entries[0] == Dots(d, d)[0]
    && entries[1] == Dots(d, entries[1].inode)[1]
    && (forall i :: 2 <= i < |entries| ==> !entries[i].IsDot() && entries[i].Validate(limits).Ok? && entries[i].recordLength != 0)
    && UniqueNames(entries) && TombstonesFirst(entries)
  }

  /** The directory a ".." entry points to. */
  function Up(dirs: Dirs, d: u64): u64
    requires d in dirs && |dirs[d]| >= 2
  {
    dirs[d][1].inode
  }

  lemma ParentFound(dirs: Dirs, d: u64, limits: Limits)
    requires d in dirs && TableOk(d, dirs[d], limits)
    ensures FindIndex(dirs[d], NormalizeName(DOTDOT)) == Some(1)
    ensures Directories.Find(dirs, d, DOTDOT).Some? && Directories.Find(dirs, d, DOTDOT).value.inode == Up(dirs, d)
  {
    FindUnique(dirs[d], 1);
  }

  /** A name other than the dots is found only among the names. */
  lemma NameFound(dirs: Dirs, d: u64, name: text, limits: Limits)
    requires d in dirs && TableOk(d, dirs[d], limits) && name != DOT && name != DOTDOT
    requires FindIndex(dirs[d], NormalizeName(name)).Some?
    ensures 2 <= FindIndex(dirs[d], NormalizeName(name)).value < |dirs[d]|
  {
    DotKeys(name);
    var i := FindIndex(dirs[d], NormalizeName(name)).value;
    assert dirs[d][i].Named(NormalizeName(name));
  }

  // ----- The tree -----

  /** What an active name says about the inode it leads to. */
  predicate NameOk(ns: Namespace, d: u64, e: DirectoryEntry) {
    && e.inode in ns.inodes && ns.inodes[e.inode].inodeType == e.entryType
    && e.inode != ns.root
    && (e.inode in ns.dirs ==> |ns.dirs[e.inode]| >= 2 && Up(ns.dirs, e.inode) == d)
  }

  ghost predicate TreeOk(ns: Namespace, limits: Limits) {
    && ns.root in ns.dirs
    && (forall d :: d in ns.dirs <==> ns.IsDirectory(d))
    && (forall d {:trigger TableOk(d, ns.dirs[d], limits)} :: d in ns.dirs ==> TableOk(d, ns.dirs[d], limits))
    && (forall d {:trigger Up(ns.dirs, d)} :: d in ns.dirs && |ns.dirs[d]| >= 2 ==> Up(ns.dirs, d) in ns.dirs)
    && |ns.dirs[ns.root]| >= 2 && Up(ns.dirs, ns.root) == ns.root
    && (forall d, i {:trigger NameOk(ns, d, ns.dirs[d][i])} ::
          d in ns.dirs && 2 <= i < |ns.dirs[d]| && !ns.dirs[d][i].deleted ==> NameOk(ns, d, ns.dirs[d][i]))
  }

  /** The names of an inode: directory and place of every active entry that leads to it. */
  function Links(dirs: Dirs, id: u64): set<(u64, int)> {
    set d, i | d in dirs && 2 <= i < |dirs[d]| && LinkAt(dirs[d], i, id) :: (d, i)
  }

  predicate LinkAt(entries: Entries, i: int, id: u64) {
    0 <= i < |entries| && !entries[i].deleted && entries[i].inode == id
  }

  /** The root has no name, any other directory one, and everything else as many as it counts. */
  ghost predicate LinksOk(ns: Namespace) {
    forall id {:trigger LinkCountOk(ns, id)} :: id in ns.inodes ==> LinkCountOk(ns, id)
  }

  ghost predicate LinkCountOk(ns: Namespace, id: u64)
    requires id in ns.inodes
  {
    if id == ns.root then Links(ns.dirs, id) == {} && ns.inodes[id].linkCount == 2
    else if ns.inodes[id].inodeType == Directory then |Links(ns.dirs, id)| == 1 && ns.inodes[id].linkCount == 2
    else |Links(ns.dirs, id)| == ns.inodes[id].linkCount >= 1
  }

  lemma LinkMeans(dirs: Dirs, id: u64, d: u64, i: int)
    ensures (d, i) in Links(dirs, id) <==> d in dirs && 2 <= i < |dirs[d]| && LinkAt(dirs[d], i, id)
  {
  }

  lemma TreeParent(ns: Namespace, limits: Limits, d: u64)
    requires TreeOk(ns, limits) && d in ns.dirs
    ensures ns.Find(d, DOTDOT).Some? && |ns.dirs[d]| >= 2
    ensures ns.Find(d, DOTDOT).value.inode == Up(ns.dirs, d) && Up(ns.dirs, d) in ns.dirs
  {
    ParentFound(ns.dirs, d, limits);
  }

  lemma TreeHeld(ns: Namespace, limits: Limits, d: u64, i: int)
    requires TreeOk(ns, limits) && d in ns.dirs && 0 <= i < |ns.dirs[d]|
    ensures HeldBy(ns, d, ns.dirs[d][i])
  {
    hide Directories.Find;
    var e := ns.dirs[d][i];
    assert TableOk(d, ns.dirs[d], limits);
    if i >= 2 && !e.deleted {
      assert NameOk(ns, d, e);
      if e.inode in ns.dirs {
        TreeParent(ns, limits, e.inode);
      }
    }
  }

  lemma TreeRoot(ns: Namespace, limits: Limits)
    requires TreeOk(ns, limits)
    ensures ns.root in ns.dirs && |ns.dirs[ns.root]| >= 2 && Up(ns.dirs, ns.root) == ns.root
    ensures forall d :: d in ns.dirs <==> ns.IsDirectory(d)
  {
  }

  /** A tree in order has the parent pointers path resolution relies on. */
  lemma TreeParentsAgree(ns: Namespace, limits: Limits)
    requires TreeOk(ns, limits)
    ensures ParentsAgree(ns)
  {
    hide TreeOk, HeldBy, Namespace.Find;
    TreeRoot(ns, limits);
    forall d | d in ns.dirs ensures ns.Find(d, DOTDOT).Some? && ns.Find(d, DOTDOT).value.inode in ns.dirs {
      TreeParent(ns, limits, d);
    }
    TreeParent(ns, limits, ns.root);
    forall d, i | d in ns.dirs && 0 <= i < |ns.dirs[d]| ensures HeldBy(ns, d, ns.dirs[d][i]) {
      TreeHeld(ns, limits, d, i);
    }
  }

  // ----- Changing one table -----

  lemma LinksAfterAppend(dirs: Dirs, d: u64, e: DirectoryEntry, id: u64)
    requires d in dirs && |dirs[d]| >= 2 && !e.deleted
    ensures Links(dirs[d := dirs[d] + [e]], id) ==
            if e.inode == id then Links(dirs, id) + {(d, |dirs[d]|)} else Links(dirs, id)
    ensures (d, |dirs[d]|) !in Links(dirs, id)
  {
    var after := dirs[d := dirs[d] + [e]];
    forall p: u64, i ensures (p, i) in Links(after, id) <==>
                        (p, i) in Links(dirs, id) || (e.inode == id && p == d && i == |dirs[d]|)
    {
      LinkMeans(after, id, p, i);
      LinkMeans(dirs, id, p, i);
    }
  }

  lemma LinksAfterBury(dirs: Dirs, d: u64, k: nat, id: u64)
    requires d in dirs && 2 <= k < |dirs[d]| && !dirs[d][k].deleted
    ensures Links(dirs[d := Bury(dirs[d], k)], id) ==
            if dirs[d][k].inode == id then Links(dirs, id) - {(d, k)} else Links(dirs, id)
    ensures dirs[d][k].inode == id ==> (d, k) in Links(dirs, id)
  {
    var after := dirs[d := Bury(dirs[d], k)];
    forall p: u64, i ensures (p, i) in Links(after, id) <==> (p, i) in Links(dirs, id) && !(p == d && i == k)
    {
      LinkMeans(after, id, p, i);
      LinkMeans(dirs, id, p, i);
    }
    LinkMeans(dirs, id, d, k);
  }

  /** Changing only the first two entries of a table changes no name. */
  lemma LinksAfterReparent(dirs: Dirs, d: u64, up: DirectoryEntry, id: u64)
    requires d in dirs && |dirs[d]| >= 2
    ensures Links(dirs[d := dirs[d][1 := up]], id) == Links(dirs, id)
  {
    var after := dirs[d := dirs[d][1 := up]];
    forall p: u64, i ensures (p, i) in Links(after, id) <==> (p, i) in Links(dirs, id) {
      LinkMeans(after, id, p, i);
      LinkMeans(dirs, id, p, i);
    }
  }

  lemma LinksAfterCreate(dirs: Dirs, d: u64, parent: u64, id: u64)
    requires d !in dirs
    ensures Links(dirs[d := Dots(d, parent)], id) == Links(dirs, id)
  {
    var after := dirs[d := Dots(d, parent)];
    forall p: u64, i ensures (p, i) in Links(after, id) <==> (p, i) in Links(dirs, id) {
      LinkMeans(after, id, p, i);
      LinkMeans(dirs, id, p, i);
    }
  }

  lemma LinksAfterErase(dirs: Dirs, d: u64, id: u64)
    requires d in dirs && Vacant(dirs[d]) && forall i :: 2 <= i < |dirs[d]| ==> !dirs[d][i].IsDot()
    ensures Links(dirs - {d}, id) == Links(dirs, id)
  {
    var after := dirs - {d};
    forall p: u64, i ensures (p, i) in Links(after, id) <==> (p, i) in Links(dirs, id) {
      LinkMeans(after, id, p, i);
      LinkMeans(dirs, id, p, i);
    }
  }
}
