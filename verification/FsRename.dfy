/** Linking and renaming keep the tree, and a rename moves exactly one name. */
module FsRename {
  import opened Base
  import opened Devices
  import opened Allocators
  import opened Inodes
  import opened InodeTables
  import opened Directories
  import opened Paths
  import opened Trees
  import opened TreeOps
  import opened PathStability
  import opened FileData
  import opened FsModel
  import opened FsInvariant
  import opened FsCreate
  import opened FsRemove
  import opened FsRemovePath

  // ----- Hard links -----

  /** One name short of what its link count says. */
  predicate OneShort(ns: Namespace, id: u64) {
    && id in ns.inodes && id != ns.root
    && if ns.inodes[id].inodeType == Directory
       then |Links(ns.dirs, id)| == 0 && ns.inodes[id].linkCount == 2
       else |Links(ns.dirs, id)| + 1 == ns.inodes[id].linkCount
  }

  lemma OneShortFilled(ns: Namespace, after: Namespace, id: u64)
    requires OneShort(ns, id) && after.inodes == ns.inodes && after.root == ns.root
    requires |Links(after.dirs, id)| == |Links(ns.dirs, id)| + 1
    ensures LinkCountOk(after, id)
  {
    hide Links;
  }

  /** Adding the missing name completes the tree. */
  lemma AppendComplete(ns: Namespace, d: u64, e: DirectoryEntry, limits: Limits)
    requires TreeOk(ns, limits) && LinksOkBut(ns, e.inode) && OneShort(ns, e.inode)
    requires NameableParts(ns, d, e, limits) && NameOk(ns, d, e)
    ensures var after := ns.(dirs := ns.dirs[d := ns.dirs[d] + [e]]);
            TreeOk(after, limits) && LinksOk(after)
  {
    hide TreeOk, LinksOk, LinksOkBut, Links, LinkCountOk, OneShort, NameOk, DirectoryEntry.Validate;
    RootExists(ns, limits);
    AppendTree(ns, d, e, limits);
    OneShortExists(ns, e.inode);
    AppendLinks(ns, d, e);
    var after := ns.(dirs := ns.dirs[d := ns.dirs[d] + [e]]);
    OneShortFilled(ns, after, e.inode);
    LinksOkJoin(after, e.inode);
  }

  lemma OneShortExists(ns: Namespace, id: u64)
    requires OneShort(ns, id)
    ensures id in ns.inodes
  {
  }

  lemma LinkTree(ns: Namespace, d: u64, e: DirectoryEntry, inode: Inode, limits: Limits)
    requires TreeOk(ns, limits) && LinksOk(ns) && NameableParts(ns, d, e, limits) && e.inode in ns.inodes
    requires ns.inodes[e.inode].inodeType == e.entryType == inode.inodeType != Directory
    requires inode.linkCount == ns.inodes[e.inode].linkCount + 1
    ensures var after := Namespace(ns.inodes[e.inode := inode], ns.dirs[d := ns.dirs[d] + [e]], ns.root);
            TreeOk(after, limits) && LinksOk(after)
  {
    hide TreeOk, LinksOk, LinksOkBut, Links, LinkCountOk, DirectoryEntry.Validate;
    var changed := ns.(inodes := ns.inodes[e.inode := inode]);
    OneName(ns, e.inode, limits);
    DirectoryIffTable(ns, e.inode, limits);
    SameTypesTree(ns, changed.inodes, limits);
    ChangedLinks(ns, e.inode, inode);
    AppendComplete(changed, d, e, limits);
  }

  predicate NameableParts(ns: Namespace, d: u64, e: DirectoryEntry, limits: Limits) {
    && d in ns.dirs && !e.deleted && !e.IsDot() && e.Validate(limits).Ok? && e.recordLength != 0
    && FindIndex(ns.dirs[d], e.Key()).None?
  }

  lemma ChangedLinks(ns: Namespace, id: u64, inode: Inode)
    requires LinksOk(ns) && id in ns.inodes
    ensures LinksOkBut(ns.(inodes := ns.inodes[id := inode]), id)
  {
    hide Links;
    var changed := ns.(inodes := ns.inodes[id := inode]);
    forall x | x in changed.inodes && x != id ensures LinkCountOk(changed, x) {
      assert LinkCountOk(ns, x);
    }
  }

  /** One more name, one more link, and nothing else. */
  lemma LinkNodeEffect(core: Core, id: u64, parent: u64, name: text, limits: Limits)
    requires CoreInv(core, limits) && id in core.table.inodes && core.table.inodes[id].inodeType != Directory
    requires core.table.inodes[id].linkCount < limits.maxHardLinks
    ensures var r := LinkNode(core, id, parent, name, limits);
            r.Ok? ==>
              && CoreInv(r.value, limits)
              && r.value.Files() == core.Files() && r.value.superblock == core.superblock
              && r.value.table.inodes == core.table.inodes[id := core.table.inodes[id].(
                   linkCount := core.table.inodes[id].linkCount + 1, generation := r.value.table.inodes[id].generation)]
              && NameAdded(core.dirs, r.value.dirs, parent, NewEntry(id, core.table.inodes[id].inodeType, name))
              && r.value.dirs.Keys == core.dirs.Keys
  {
    hide CoreInv, NameAdded, EntriesOk, TreeOk, LinksOk, OwnershipOk, StillOk, Allocation.Valid, Table.Valid, Links, Add, LinkNode, DirectoryEntry.Validate, Linked;
    var inode := core.table.inodes[id];
    IdentifierIs(core, id, limits);
    var e := NewEntry(id, inode.inodeType, name);
    if Add(core.dirs, parent, e, limits).Ok? {
      AddInDirectory(core.dirs, parent, e, limits);
      AddIsAppend(core.dirs, parent, e, limits);
      LinkNodeIs(core, id, parent, name, limits);
      LinkedInv(core, id, parent, e, Wrap64(inode.generation + 1), limits);
      LinkedFacts(core, id, parent, e, Wrap64(inode.generation + 1));
      AppendNames(core.dirs, core.dirs, parent, e);
    } else {
      LinkNodeFails(core, id, parent, name, limits);
    }
  }

  lemma IdentifierIs(core: Core, id: u64, limits: Limits)
    requires CoreInv(core, limits) && id in core.table.inodes
    ensures core.table.inodes[id].identifier == id
  {
    InvPieces(core, limits);
    hide CoreInv;
  }

  lemma LinkNodeFails(core: Core, id: u64, parent: u64, name: text, limits: Limits)
    requires id in core.table.inodes && core.table.inodes[id].identifier == id
    requires Add(core.dirs, parent, NewEntry(id, core.table.inodes[id].inodeType, name), limits).Err?
    ensures LinkNode(core, id, parent, name, limits).Err?
  {
    hide Add;
  }

  lemma LinkedTable(core: Core, id: u64, parent: u64, e: DirectoryEntry, generation: u64)
    requires id in core.table.inodes && parent in core.dirs && core.table.inodes[id].linkCount < TWO32 - 1
    ensures var inode := core.table.inodes[id];
            Linked(core, id, parent, e, generation).table ==
            core.table.Put(id, inode.(linkCount := inode.linkCount + 1, generation := generation))
  {
  }

  lemma LinkedFacts(core: Core, id: u64, parent: u64, e: DirectoryEntry, generation: u64)
    requires id in core.table.inodes && parent in core.dirs && core.table.inodes[id].linkCount < TWO32 - 1
    ensures var next := Linked(core, id, parent, e, generation);
            && next.Files() == core.Files() && next.superblock == core.superblock
            && id in next.table.inodes && next.table.inodes[id].generation == generation
            && next.table.inodes == core.table.inodes[id := core.table.inodes[id].(
                 linkCount := core.table.inodes[id].linkCount + 1, generation := generation)]
            && next.dirs == core.dirs[parent := core.dirs[parent] + [e]]
  {
  }

  function Linked(core: Core, id: u64, parent: u64, e: DirectoryEntry, generation: u64): Core
    requires id in core.table.inodes && parent in core.dirs && core.table.inodes[id].linkCount < TWO32 - 1
  {
    var inode := core.table.inodes[id];
    core.(dirs := core.dirs[parent := core.dirs[parent] + [e]],
          table := core.table.Put(id, inode.(linkCount := inode.linkCount + 1, generation := generation)))
  }

  lemma LinkNodeIs(core: Core, id: u64, parent: u64, name: text, limits: Limits)
    requires id in core.table.inodes && parent in core.dirs && core.table.inodes[id].linkCount < TWO32 - 1
    requires core.table.inodes[id].identifier == id
    requires var e := NewEntry(id, core.table.inodes[id].inodeType, name);
             Add(core.dirs, parent, e, limits) == Ok(core.dirs[parent := core.dirs[parent] + [e]])
    ensures var inode := core.table.inodes[id];
            LinkNode(core, id, parent, name, limits) ==
            Ok(Linked(core, id, parent, NewEntry(id, inode.inodeType, name), Wrap64(inode.generation + 1)))
  {
    hide Add;
    var inode := core.table.inodes[id];
    assert Wrap32(inode.linkCount + 1) == inode.linkCount + 1;
  }

  lemma LinkedInv(core: Core, id: u64, parent: u64, e: DirectoryEntry, generation: u64, limits: Limits)
    requires CoreInv(core, limits) && id in core.table.inodes && core.table.inodes[id].linkCount < limits.maxHardLinks
    requires NameableParts(core.Names(), parent, e, limits)
    requires e.inode == id && e.entryType == core.table.inodes[id].inodeType != Directory
    requires EntriesOk(core.dirs[parent := core.dirs[parent] + [e]], limits)
    ensures CoreInv(Linked(core, id, parent, e, generation), limits)
  {
    hide CoreInv, EntriesOk, TreeOk, LinksOk, OwnershipOk, StillOk, Allocation.Valid, Table.Valid, NameableParts, Linked;
    NameableDirectory(core.Names(), parent, e, limits);
    InvPieces(core, limits);
    LinkedFacts(core, id, parent, e, generation);
    LinkedTable(core, id, parent, e, generation);
    LinkedTree(core, id, parent, e, generation, limits);
    var inode := core.table.inodes[id];
    SameExtentsOwnership(core.allocation.used, core.table.inodes, id, inode.(linkCount := inode.linkCount + 1, generation := generation));
    LinkedOk(core, id, generation, limits);
    PutValid(core.table, id, inode.(linkCount := inode.linkCount + 1, generation := generation), limits);
    InvAfterDrop(core, Linked(core, id, parent, e, generation), limits);
  }

  lemma NameableDirectory(ns: Namespace, d: u64, e: DirectoryEntry, limits: Limits)
    requires NameableParts(ns, d, e, limits)
    ensures d in ns.dirs
  {
  }

  lemma LinkedTree(core: Core, id: u64, parent: u64, e: DirectoryEntry, generation: u64, limits: Limits)
    requires TreeOk(core.Names(), limits) && LinksOk(core.Names()) && NameableParts(core.Names(), parent, e, limits)
    requires id in core.table.inodes && parent in core.dirs && core.table.inodes[id].linkCount < limits.maxHardLinks
    requires e.inode == id && e.entryType == core.table.inodes[id].inodeType != Directory
    ensures var next := Linked(core, id, parent, e, generation);
            TreeOk(next.Names(), limits) && LinksOk(next.Names())
  {
    hide TreeOk, LinksOk, NameableParts;
    var inode, next := core.table.inodes[id], Linked(core, id, parent, e, generation);
    var linked := inode.(linkCount := inode.linkCount + 1, generation := generation);
    LinkTree(core.Names(), parent, e, linked, limits);
    assert next.Names() == Namespace(core.table.inodes[id := linked], core.dirs[parent := core.dirs[parent] + [e]], core.superblock.rootInode);
  }

  lemma AddInDirectory(dirs: Dirs, d: u64, e: DirectoryEntry, limits: Limits)
    requires Add(dirs, d, e, limits).Ok?
    ensures d in dirs
  {
  }

  lemma LinkedOk(core: Core, id: u64, generation: u64, limits: Limits)
    requires StillOk(core, core.table.inodes, limits) && id in core.table.inodes
    requires core.table.inodes[id].linkCount < limits.maxHardLinks
    ensures StillOk(core, core.table.inodes[id := core.table.inodes[id].(
              linkCount := core.table.inodes[id].linkCount + 1, generation := generation)], limits)
  {
    var inode := core.table.inodes[id];
    hide InodeOk;
    assert InodeOk(core.device, inode, core.superblock, limits);
    LinkCountInode(core.device, inode, inode.linkCount + 1, generation, core.superblock, limits);
    StillOkPut(core, id, inode.(linkCount := inode.linkCount + 1, generation := generation), limits);
  }

  // ----- Moving a directory under another parent -----

  function NewParent(dirs: Dirs, c: u64, parent: u64): Dirs
    requires c in dirs && |dirs[c]| >= 2
  {
    dirs[c := dirs[c][1 := dirs[c][1].(inode := parent)]]
  }

  /** A directory nothing names can be given any parent. */
  lemma ReparentTree(ns: Namespace, c: u64, parent: u64, limits: Limits)
    requires TreeOk(ns, limits) && c in ns.dirs && |ns.dirs[c]| >= 2 && parent in ns.dirs && c != ns.root
    requires Links(ns.dirs, c) == {}
    ensures TreeOk(ns.(dirs := NewParent(ns.dirs, c, parent)), limits)
  {
    hide Links, UniqueNames, TombstonesFirst, DirectoryEntry.Validate;
    var after := ns.(dirs := NewParent(ns.dirs, c, parent));
    TablesLong(ns, limits);
    assert TableOk(c, ns.dirs[c], limits);
    ReparentTable(c, ns.dirs[c], parent, limits);
    hide TableOk;
    forall d | d in after.dirs ensures TableOk(d, after.dirs[d], limits) && |after.dirs[d]| >= 2 && Up(after.dirs, d) in after.dirs {
      assert Up(ns.dirs, d) in ns.dirs;
    }
    forall d, i | d in after.dirs && 2 <= i < |after.dirs[d]| && !after.dirs[d][i].deleted
      ensures NameOk(after, d, after.dirs[d][i])
    {
      assert after.dirs[d][i] == ns.dirs[d][i];
      assert NameOk(ns, d, ns.dirs[d][i]);
      LinkMeans(ns.dirs, c, d, i);
    }
  }

  lemma ReparentLinks(ns: Namespace, c: u64, parent: u64, x: u64)
    requires c in ns.dirs && |ns.dirs[c]| >= 2 && LinksOkBut(ns, x)
    ensures LinksOkBut(ns.(dirs := NewParent(ns.dirs, c, parent)), x)
    ensures Links(NewParent(ns.dirs, c, parent), x) == Links(ns.dirs, x)
  {
    hide Links;
    var up := ns.dirs[c][1].(inode := parent);
    var after := ns.(dirs := NewParent(ns.dirs, c, parent));
    forall id | id in after.inodes && id != x ensures LinkCountOk(after, id) {
      assert LinkCountOk(ns, id);
      LinksAfterReparent(ns.dirs, c, up, id);
    }
    LinksAfterReparent(ns.dirs, c, up, x);
  }

  // ----- Rename -----

  /** The tables after a successful rename of the name at place `k`. */
  function Relinked(dirs: Dirs, d: u64, k: nat, target: u64, e: DirectoryEntry): Dirs
    requires d in dirs && k < |dirs[d]| && target in dirs
  {
    var without := dirs[d := Bury(dirs[d], k)];
    without[target := without[target] + [e]]
  }

  lemma RelinkTree(ns: Namespace, d: u64, k: nat, target: u64, e: DirectoryEntry, limits: Limits)
    requires TreeOk(ns, limits) && LinksOk(ns) && NameAt(ns, d, k, e.inode) && target in ns.dirs
    requires e.entryType == ns.inodes[e.inode].inodeType
    requires var without := ns.(dirs := ns.dirs[d := Bury(ns.dirs[d], k)]);
             NameableParts(without, target, e, limits)
    requires e.inode in ns.dirs ==> d == target
    ensures TreeOk(ns.(dirs := Relinked(ns.dirs, d, k, target, e)), limits)
    ensures LinksOk(ns.(dirs := Relinked(ns.dirs, d, k, target, e)))
  {
    hide TreeOk, LinksOk, LinksOkBut, Links, LinkCountOk, NameOk, NameableParts, OneShort;
    var without := ns.(dirs := ns.dirs[d := Bury(ns.dirs[d], k)]);
    SameUps(ns, d, k, e, target, limits);
    UnnamedShort(ns, d, k, e.inode, limits);
    AppendComplete(without, target, e, limits);
    assert ns.(dirs := Relinked(ns.dirs, d, k, target, e)) == without.(dirs := without.dirs[target := without.dirs[target] + [e]]);
  }

  /** Burying a name leaves its inode one name short. */
  lemma UnnamedShort(ns: Namespace, d: u64, k: nat, id: u64, limits: Limits)
    requires TreeOk(ns, limits) && LinksOk(ns) && NameAt(ns, d, k, id)
    ensures var without := ns.(dirs := ns.dirs[d := Bury(ns.dirs[d], k)]);
            TreeOk(without, limits) && LinksOkBut(without, id) && OneShort(without, id)
  {
    hide TreeOk, LinksOk, LinksOkBut, Links, NameOk;
    var inode := ns.inodes[id];
    var without := ns.(dirs := ns.dirs[d := Bury(ns.dirs[d], k)]);
    assert Unnamed(ns, d, k, id, inode) == without;
    NotRoot(ns, d, k, id, limits);
    CountOf(ns, id);
    UnnamedTree(ns, d, k, id, inode, limits);
  }

  lemma NotRoot(ns: Namespace, d: u64, k: nat, id: u64, limits: Limits)
    requires TreeOk(ns, limits) && NameAt(ns, d, k, id)
    ensures id != ns.root
  {
    assert NameOk(ns, d, ns.dirs[d][k]);
  }

  lemma CountOf(ns: Namespace, id: u64)
    requires LinksOk(ns) && id in ns.inodes
    ensures LinkCountOk(ns, id)
  {
    hide LinkCountOk;
  }

  lemma SameUps(ns: Namespace, d: u64, k: nat, e: DirectoryEntry, target: u64, limits: Limits)
    requires TreeOk(ns, limits) && NameAt(ns, d, k, e.inode) && e.entryType == ns.inodes[e.inode].inodeType
    requires e.inode in ns.dirs ==> d == target
    ensures NameOk(ns.(dirs := ns.dirs[d := Bury(ns.dirs[d], k)]), target, e)
  {
    TablesLong(ns, limits);
    hide TableOk;
    assert NameOk(ns, d, ns.dirs[d][k]);
  }

  lemma MoveDirectoryTree(ns: Namespace, d: u64, k: nat, target: u64, e: DirectoryEntry, limits: Limits)
    requires TreeOk(ns, limits) && LinksOk(ns) && NameAt(ns, d, k, e.inode) && target in ns.dirs
    requires e.entryType == ns.inodes[e.inode].inodeType && e.inode in ns.dirs
    requires var without := ns.(dirs := ns.dirs[d := Bury(ns.dirs[d], k)]);
             NameableParts(without, target, e, limits)
    ensures var relinked := Relinked(ns.dirs, d, k, target, e);
            && Reparent(relinked, e.inode, target).Some?
            && var after := ns.(dirs := Reparent(relinked, e.inode, target).value);
               TreeOk(after, limits) && LinksOk(after)
  {
    var without := ns.(dirs := ns.dirs[d := Bury(ns.dirs[d], k)]);
    hide TreeOk, LinksOk, LinksOkBut, Links, LinkCountOk, NameOk, Reparent, TableOk, NameAt, NameableParts;
    var id := e.inode;
    UnnamedShort(ns, d, k, id, limits);
    RootExists(without, limits);
    ShortDirectory(without, id, limits);
    hide OneShort;
    var moved := without.(dirs := NewParent(without.dirs, id, target));
    ReparentTree(without, id, target, limits);
    ReparentLinks(without, id, target, id);
    StillShort(without, moved, id);
    MovedNameable(without, id, target, e, limits);
    AppendComplete(moved, target, e, limits);
    ReparentCommutes(without, id, target, e, limits);
  }

  lemma ShortDirectory(ns: Namespace, id: u64, limits: Limits)
    requires TreeOk(ns, limits) && OneShort(ns, id) && id in ns.dirs
    ensures Links(ns.dirs, id) == {} && id != ns.root && id in ns.inodes
  {
    hide Links;
    DirectoryTyped(ns, id, limits);
  }

  lemma StillShort(ns: Namespace, moved: Namespace, id: u64)
    requires OneShort(ns, id) && moved.inodes == ns.inodes && moved.root == ns.root
    requires Links(moved.dirs, id) == Links(ns.dirs, id)
    ensures OneShort(moved, id)
  {
  }

  lemma MovedNameable(without: Namespace, id: u64, target: u64, e: DirectoryEntry, limits: Limits)
    requires TreeOk(without, limits) && id in without.dirs && |without.dirs[id]| >= 2 && id == e.inode != without.root && id in without.inodes
    requires e.entryType == without.inodes[id].inodeType
    requires NameableParts(without, target, e, limits)
    ensures var moved := without.(dirs := NewParent(without.dirs, id, target));
            NameableParts(moved, target, e, limits) && NameOk(moved, target, e)
  {
    var moved := without.(dirs := NewParent(without.dirs, id, target));
    if target == id {
      var entries := moved.dirs[target];
      forall i | 0 <= i < |entries| ensures !entries[i].Named(e.Key()) {
        assert without.dirs[id][i].Named(e.Key()) == entries[i].Named(e.Key());
      }
    }
  }

  lemma ReparentCommutes(without: Namespace, id: u64, target: u64, e: DirectoryEntry, limits: Limits)
    requires TreeOk(without, limits) && id in without.dirs && |without.dirs[id]| >= 2 && target in without.dirs
    requires TreeOk(without.(dirs := NewParent(without.dirs, id, target)[target := NewParent(without.dirs, id, target)[target] + [e]]), limits)
    ensures Reparent(without.dirs[target := without.dirs[target] + [e]], id, target) ==
            Some(NewParent(without.dirs, id, target)[target := NewParent(without.dirs, id, target)[target] + [e]])
  {
    var appended: Dirs := without.dirs[target := without.dirs[target] + [e]];
    assert TableOk(id, without.dirs[id], limits);
    ParentFound(without.dirs, id, limits);
    FoundBeforeAppend(without.dirs[id], e, NormalizeName(DOTDOT));
    hide TreeOk, TableOk, FindIndex;
    assert FindIndex(appended[id], NormalizeName(DOTDOT)) == Some(1);
    if target == id {
      assert (without.dirs[id] + [e])[1 := without.dirs[id][1].(inode := target)] ==
             without.dirs[id][1 := without.dirs[id][1].(inode := target)] + [e];
    }
    assert NewParent(appended, id, target) == NewParent(without.dirs, id, target)[target := NewParent(without.dirs, id, target)[target] + [e]];
  }

  lemma FoundBeforeAppend(entries: Entries, e: DirectoryEntry, key: text)
    requires FindIndex(entries, key).Some?
    ensures FindIndex(entries + [e], key) == FindIndex(entries, key)
  {
    var i := FindIndex(entries, key).value;
    assert (entries + [e])[i].Named(key);
    assert forall j :: 0 <= j < i ==> (entries + [e])[j] == entries[j];
  }

  function Redirected(found: Option<DirectoryEntry>, parent: u64): Option<DirectoryEntry> {
    if found.Some? then Some(found.value.(inode := parent)) else None
  }

  /** The map from names to entries after a rename: the entry is under its new name and not under the
      old one, a directory moved to another parent has a new "..", and every other name finds what it
      found. */
  function RenamedFind(dirs: Dirs, source: u64, sourceName: text, target: u64, targetName: text, d: u64, name: text)
    : Option<DirectoryEntry>
    requires Directories.Find(dirs, source, sourceName).Some?
  {
    var entry := Directories.Find(dirs, source, sourceName).value;
    if SameSpot(d, name, target, targetName) then Some(Moved(entry, targetName))
    else if SameSpot(d, name, source, sourceName) then None
    else if entry.entryType == Directory && source != target && SameSpot(d, name, entry.inode, DOTDOT) then
      Redirected(Directories.Find(dirs, d, name), target)
    else Directories.Find(dirs, d, name)
  }

  ghost predicate NameMoved(dirs: Dirs, next: Dirs, source: u64, sourceName: text, target: u64, targetName: text) {
    && Directories.Find(dirs, source, sourceName).Some? && Directories.Find(dirs, target, targetName).None?
    && next.Keys == dirs.Keys
    && forall d: u64, name: text ::
         Directories.Find(next, d, name) == RenamedFind(dirs, source, sourceName, target, targetName, d, name)
  }

  lemma MovableTables(ns: Namespace, d: u64, limits: Limits)
    requires TreeOk(ns, limits) && d in ns.dirs
    ensures TombstonesFirst(ns.dirs[d])
    ensures forall i :: 0 <= i < |ns.dirs[d]| ==> MovableEntry(ns.dirs, ns.dirs[d][i])
  {
    assert TableOk(d, ns.dirs[d], limits);
    RootExists(ns, limits);
    hide TableOk;
    forall i | 0 <= i < |ns.dirs[d]| ensures MovableEntry(ns.dirs, ns.dirs[d][i]) {
      var e := ns.dirs[d][i];
      if !e.deleted && e.entryType == Directory {
        EntryDirectory(ns, d, i, limits);
        assert TableOk(e.inode, ns.dirs[e.inode], limits);
        ParentFound(ns.dirs, e.inode, limits);
      }
    }
  }

  lemma EntryDirectory(ns: Namespace, d: u64, i: int, limits: Limits)
    requires TreeOk(ns, limits) && d in ns.dirs && 0 <= i < |ns.dirs[d]|
    requires !ns.dirs[d][i].deleted && ns.dirs[d][i].entryType == Directory
    ensures ns.dirs[d][i].inode in ns.dirs
  {
    assert TableOk(d, ns.dirs[d], limits);
    assert Up(ns.dirs, d) in ns.dirs;
    if i >= 2 {
      assert NameOk(ns, d, ns.dirs[d][i]);
    }
  }

  lemma RelinkedFinds(ns: Namespace, d: u64, k: nat, sourceName: text, target: u64, targetName: text, x: u64, name: text, limits: Limits)
    requires TreeOk(ns, limits) && d in ns.dirs && FindIndex(ns.dirs[d], NormalizeName(sourceName)) == Some(k)
    requires target in ns.dirs && Directories.Find(ns.dirs, target, targetName).None?
    requires var e := Moved(ns.dirs[d][k], targetName);
             NameableParts(ns.(dirs := ns.dirs[d := Bury(ns.dirs[d], k)]), target, e, limits)
    ensures Directories.Find(ns.dirs, d, sourceName) == Some(ns.dirs[d][k])
    ensures Directories.Find(Relinked(ns.dirs, d, k, target, Moved(ns.dirs[d][k], targetName)), x, name) ==
            if SameSpot(x, name, target, targetName) then Some(Moved(ns.dirs[d][k], targetName))
            else if SameSpot(x, name, d, sourceName) then None
            else Directories.Find(ns.dirs, x, name)
  {
    assert TableOk(d, ns.dirs[d], limits);
    UniqueTable(d, ns.dirs[d], limits);
    hide TreeOk, TableOk, DirectoryEntry.Validate, UniqueNames, Bury, FindIndex;
    assert ns.dirs[d][k].Named(NormalizeName(sourceName));
    BuryFinds(ns.dirs, d, k, x, name);
    AppendFinds(ns.dirs[d := Bury(ns.dirs[d], k)], target, Moved(ns.dirs[d][k], targetName), x, name);
  }

  lemma AddFacts(ns: Namespace, target: u64, e: DirectoryEntry, limits: Limits)
    requires Add(ns.dirs, target, e, limits).Ok? && !e.deleted && e.recordLength == AlignedDirectoryLength(|e.name|)
    ensures NameableParts(ns, target, e, limits)
    ensures Add(ns.dirs, target, e, limits).value == ns.dirs[target := ns.dirs[target] + [e]]
  {
    AddInDirectory(ns.dirs, target, e, limits);
    AddIsAppend(ns.dirs, target, e, limits);
  }

  /** The step of `Rename` after the target name was accepted. */
  lemma RenameRelinks(ns: Namespace, d: u64, k: nat, target: u64, e: DirectoryEntry, limits: Limits)
    requires TreeOk(ns, limits) && LinksOk(ns) && NameAt(ns, d, k, e.inode) && target in ns.dirs
    requires e.entryType == ns.dirs[d][k].entryType
    requires var without := ns.(dirs := ns.dirs[d := Bury(ns.dirs[d], k)]);
             NameableParts(without, target, e, limits)
    ensures var relinked := Relinked(ns.dirs, d, k, target, e);
            if e.entryType == Directory && d != target then
              && Reparent(relinked, e.inode, target).Some?
              && var after := ns.(dirs := Reparent(relinked, e.inode, target).value);
                 TreeOk(after, limits) && LinksOk(after)
            else
              TreeOk(ns.(dirs := relinked), limits) && LinksOk(ns.(dirs := relinked))
  {
    EntryTyped(ns, d, k, e.inode, limits);
    hide TreeOk, LinksOk, NameAt, NameableParts, Reparent, Relinked;
    if e.entryType == Directory && d != target {
      MoveDirectoryTree(ns, d, k, target, e, limits);
    } else {
      RelinkTree(ns, d, k, target, e, limits);
    }
  }

  lemma EntryTyped(ns: Namespace, d: u64, k: nat, id: u64, limits: Limits)
    requires TreeOk(ns, limits) && NameAt(ns, d, k, id)
    ensures k < |ns.dirs[d]| && ns.dirs[d][k].entryType == ns.inodes[id].inodeType
    ensures ns.inodes[id].inodeType == Directory <==> id in ns.dirs
  {
    assert NameOk(ns, d, ns.dirs[d][k]);
    DirectoryIffTable(ns, id, limits);
  }

  /** A rename, refused or not: the tables are as before, or the tree is in order again with exactly
      that name moved. */
  lemma RenameEffect(ns: Namespace, source: u64, sourceName: text, target: u64, targetName: text, limits: Limits)
    requires TreeOk(ns, limits) && LinksOk(ns) && target in ns.dirs
    ensures var (next, r) := Rename(ns.dirs, source, sourceName, target, targetName, limits);
            && (r.Err? ==> next == ns.dirs)
            && TreeOk(ns.(dirs := next), limits) && LinksOk(ns.(dirs := next))
            && (r.Ok? ==> NameMoved(ns.dirs, next, source, sourceName, target, targetName) && EntriesOk(next, limits))
  {
    hide EntriesOk, TreeOk, LinksOk, Rename, NameMoved;
    assert ns.(dirs := ns.dirs) == ns;
    var (next, r) := Rename(ns.dirs, source, sourceName, target, targetName, limits);
    if r.Err? {
      if source in ns.dirs {
        MovableTables(ns, source, limits);
      }
      FailedRenameRestores(ns.dirs, source, sourceName, target, targetName, limits);
    } else {
      RenameSteps(ns.dirs, source, sourceName, target, targetName, limits);
      var k := FoundName(ns, source, sourceName, limits);
      RenameSucceeds(ns, source, sourceName, target, targetName, k, limits);
      RenameEntriesOk(ns.dirs, source, sourceName, target, targetName, limits);
    }
  }

  lemma RenameEntriesOk(dirs: Dirs, source: u64, sourceName: text, target: u64, targetName: text, limits: Limits)
    requires Rename(dirs, source, sourceName, target, targetName, limits).1.Ok?
    ensures EntriesOk(Rename(dirs, source, sourceName, target, targetName, limits).0, limits)
  {
    hide Rename, Total;
    RenameTotal(dirs, source, sourceName, target, targetName, limits);
  }

  lemma RenameSteps(dirs: Dirs, source: u64, sourceName: text, target: u64, targetName: text, limits: Limits)
    requires Rename(dirs, source, sourceName, target, targetName, limits).1.Ok?
    ensures Directories.Find(dirs, target, targetName).None? && targetName != DOTDOT && sourceName != DOTDOT
    ensures Remove(dirs, source, sourceName).Ok?
    ensures var (without, removed) := Remove(dirs, source, sourceName).value;
            var e := Moved(removed, targetName);
            && Add(without, target, e, limits).Ok?
            && var relinked := Add(without, target, e, limits).value;
               Rename(dirs, source, sourceName, target, targetName, limits).0 ==
               if e.entryType == Directory && source != target && Reparent(relinked, e.inode, target).Some?
               then Reparent(relinked, e.inode, target).value
               else relinked
  {
    NotDotDot(dirs, source, sourceName);
    hide Add, Remove, Reparent;
  }

  lemma NotDotDot(dirs: Dirs, d: u64, name: text)
    requires Remove(dirs, d, name).Ok?
    ensures name != DOTDOT
  {
  }

  lemma RenameSucceeds(ns: Namespace, source: u64, sourceName: text, target: u64, targetName: text, k: nat, limits: Limits)
    requires TreeOk(ns, limits) && LinksOk(ns) && target in ns.dirs
    requires Rename(ns.dirs, source, sourceName, target, targetName, limits).1.Ok?
    requires source in ns.dirs && k < |ns.dirs[source]| && NameAt(ns, source, k, ns.dirs[source][k].inode)
    requires FindIndex(ns.dirs[source], NormalizeName(sourceName)) == Some(k)
    requires Remove(ns.dirs, source, sourceName) == Ok((ns.dirs[source := Bury(ns.dirs[source], k)], ns.dirs[source][k]))
    ensures var next := Rename(ns.dirs, source, sourceName, target, targetName, limits).0;
            && TreeOk(ns.(dirs := next), limits) && LinksOk(ns.(dirs := next))
            && NameMoved(ns.dirs, next, source, sourceName, target, targetName)
  {
    hide TreeOk, LinksOk, Rename, Add, Remove, Reparent, NameAt, NameableParts, FindIndex, Bury, Directories.Find, SameSpot;
    RenameSteps(ns.dirs, source, sourceName, target, targetName, limits);
    var without := ns.(dirs := ns.dirs[source := Bury(ns.dirs[source], k)]);
    var e := Moved(ns.dirs[source][k], targetName);
    AddFacts(without, target, e, limits);
    var relinked := Relinked(ns.dirs, source, k, target, e);
    RenameRelinks(ns, source, k, target, e, limits);
    var next := Rename(ns.dirs, source, sourceName, target, targetName, limits).0;
    var reparents := e.entryType == Directory && source != target;
    if reparents {
      ReparentKeys(relinked, e.inode, target);
    }
    RelinkedFinds(ns, source, k, sourceName, target, targetName, source, sourceName, limits);
    forall d: u64, name: text
      ensures Directories.Find(next, d, name) == RenamedFind(ns.dirs, source, sourceName, target, targetName, d, name)
    {
      RelinkedFinds(ns, source, k, sourceName, target, targetName, d, name, limits);
      if reparents {
        ReparentFinds(relinked, e.inode, target, d, name);
        if SameSpot(d, name, e.inode, DOTDOT) {
          UpIsNoName(target, targetName, source, sourceName, e.inode, d, name);
        }
      }
    }
  }

  lemma ReparentKeys(dirs: Dirs, directory: u64, parent: u64)
    requires Reparent(dirs, directory, parent).Some?
    ensures Reparent(dirs, directory, parent).value.Keys == dirs.Keys
  {
  }

  /** ".." is neither the old name nor the new one. */
  lemma UpIsNoName(target: u64, targetName: text, source: u64, sourceName: text, c: u64, d: u64, name: text)
    requires targetName != DOTDOT && sourceName != DOTDOT && SameSpot(d, name, c, DOTDOT)
    ensures !SameSpot(d, name, target, targetName) && !SameSpot(d, name, source, sourceName)
    ensures d == c && name == DOTDOT
  {
    DotKeys(name);
    DotKeys(targetName);
    DotKeys(sourceName);
  }
}
