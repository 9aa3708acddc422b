/** Each small change to the namespace keeps the tree in order and the link counts right. */
module TreeOps {
  import opened Base
  import opened Inodes
  import opened Directories
  import opened Paths
  import opened Trees

  /** Link counts are right for every inode but `x`. */
  ghost predicate LinksOkBut(ns: Namespace, x: u64) {
    forall id :: id in ns.inodes && id != x ==> LinkCountOk(ns, id)
  }

  predicate SameTypes(a: map<u64, Inode>, b: map<u64, Inode>) {
    a.Keys == b.Keys && forall id :: id in a ==> a[id].inodeType == b[id].inodeType
  }

  lemma SameTypesTree(ns: Namespace, inodes: map<u64, Inode>, limits: Limits)
    requires TreeOk(ns, limits) && SameTypes(ns.inodes, inodes)
    ensures TreeOk(ns.(inodes := inodes), limits)
  {
    hide TableOk;
    var after := ns.(inodes := inodes);
    assert forall d :: ns.IsDirectory(d) <==> after.IsDirectory(d);
    forall d, i | d in after.dirs && 2 <= i < |after.dirs[d]| && !after.dirs[d][i].deleted
      ensures NameOk(after, d, after.dirs[d][i])
    {
      assert NameOk(ns, d, ns.dirs[d][i]);
    }
  }

  /** Replacing one table, keeping its parent: the tree stays in order if the new names are. */
  lemma ChangeTable(ns: Namespace, d: u64, entries: Entries, limits: Limits)
    requires TreeOk(ns, limits) && d in ns.dirs && TableOk(d, entries, limits)
    requires |ns.dirs[d]| >= 2 && entries[1].inode == Up(ns.dirs, d)
    requires forall i :: 2 <= i < |entries| && !entries[i].deleted ==> NameOk(ns, d, entries[i])
    ensures TreeOk(ns.(dirs := ns.dirs[d := entries]), limits)
  {
    var after := ns.(dirs := ns.dirs[d := entries]);
    TablesLong(ns, limits);
    assert |entries| >= 2;
    hide TableOk;
    forall x | x in after.dirs ensures TableOk(x, after.dirs[x], limits) && |after.dirs[x]| >= 2 && Up(after.dirs, x) in after.dirs {
      assert Up(ns.dirs, x) in ns.dirs;
    }
    forall x, i | x in after.dirs && 2 <= i < |after.dirs[x]| && !after.dirs[x][i].deleted
      ensures NameOk(after, x, after.dirs[x][i])
    {
      SameUp(ns, d, entries, x, after.dirs[x][i]);
      if x != d {
        assert NameOk(ns, x, ns.dirs[x][i]);
      }
    }
  }

  lemma SameUp(ns: Namespace, d: u64, entries: Entries, x: u64, e: DirectoryEntry)
    requires d in ns.dirs && |entries| >= 2 && |ns.dirs[d]| >= 2 && entries[1].inode == Up(ns.dirs, d)
    ensures NameOk(ns.(dirs := ns.dirs[d := entries]), x, e) <==> NameOk(ns, x, e)
  {
  }

  // ----- Appending a name -----

  lemma AppendTable(d: u64, entries: Entries, e: DirectoryEntry, limits: Limits)
    requires TableOk(d, entries, limits)
    requires !e.deleted && !e.IsDot() && e.Validate(limits).Ok? && e.recordLength != 0 && FindIndex(entries, e.Key()).None?
    ensures TableOk(d, entries + [e], limits)
  {
    AppendKeepsOrder(entries, e);
  }

  lemma AppendTree(ns: Namespace, d: u64, e: DirectoryEntry, limits: Limits)
    requires TreeOk(ns, limits) && d in ns.dirs
    requires !e.deleted && !e.IsDot() && e.Validate(limits).Ok? && e.recordLength != 0 && FindIndex(ns.dirs[d], e.Key()).None?
    requires NameOk(ns, d, e)
    ensures TreeOk(ns.(dirs := ns.dirs[d := ns.dirs[d] + [e]]), limits)
  {
    assert TableOk(d, ns.dirs[d], limits);
    AppendTable(d, ns.dirs[d], e, limits);
    hide TableOk;
    TablesLong(ns, limits);
    forall i | 2 <= i < |ns.dirs[d]| + 1 && !(ns.dirs[d] + [e])[i].deleted ensures NameOk(ns, d, (ns.dirs[d] + [e])[i]) {
      if i < |ns.dirs[d]| {
        assert NameOk(ns, d, ns.dirs[d][i]);
      }
    }
    ChangeTable(ns, d, ns.dirs[d] + [e], limits);
  }

  lemma TablesLong(ns: Namespace, limits: Limits)
    requires TreeOk(ns, limits)
    ensures forall x :: x in ns.dirs ==> |ns.dirs[x]| >= 2
  {
    forall x | x in ns.dirs ensures |ns.dirs[x]| >= 2 {
      assert TableOk(x, ns.dirs[x], limits);
    }
  }

  lemma AppendLinks(ns: Namespace, d: u64, e: DirectoryEntry)
    requires d in ns.dirs && |ns.dirs[d]| >= 2 && !e.deleted && e.inode in ns.inodes && LinksOkBut(ns, e.inode)
    ensures var after := ns.(dirs := ns.dirs[d := ns.dirs[d] + [e]]);
            && LinksOkBut(after, e.inode)
            && |Links(after.dirs, e.inode)| == |Links(ns.dirs, e.inode)| + 1
  {
    hide Links;
    var after := ns.(dirs := ns.dirs[d := ns.dirs[d] + [e]]);
    forall id | id in ns.inodes && id != e.inode ensures LinkCountOk(after, id) {
      assert LinkCountOk(ns, id);
      LinksAfterAppend(ns.dirs, d, e, id);
    }
    LinksAfterAppend(ns.dirs, d, e, e.inode);
  }

  // ----- A fresh inode without a name -----

  lemma FreshTree(ns: Namespace, id: u64, inode: Inode, limits: Limits)
    requires TreeOk(ns, limits) && id !in ns.inodes && inode.inodeType != Directory
    ensures TreeOk(ns.(inodes := ns.inodes[id := inode]), limits)
  {
    hide TableOk;
    var after := ns.(inodes := ns.inodes[id := inode]);
    assert forall d :: ns.IsDirectory(d) <==> after.IsDirectory(d);
    forall d, i | d in after.dirs && 2 <= i < |after.dirs[d]| && !after.dirs[d][i].deleted
      ensures NameOk(after, d, after.dirs[d][i])
    {
      assert NameOk(ns, d, ns.dirs[d][i]);
    }
  }

  lemma DotsTable(id: u64, parent: u64, limits: Limits)
    ensures TableOk(id, Dots(id, parent), limits)
  {
    assert NormalizeName(DOT) != NormalizeName(DOTDOT) by {
      assert |NormalizeName(DOT)| == 1 && |NormalizeName(DOTDOT)| == 2;
    }
  }

  lemma FreshDirectoryTree(ns: Namespace, id: u64, inode: Inode, parent: u64, limits: Limits)
    requires TreeOk(ns, limits) && id !in ns.inodes && inode.inodeType == Directory && parent in ns.dirs
    ensures TreeOk(ns.(inodes := ns.inodes[id := inode], dirs := ns.dirs[id := Dots(id, parent)]), limits)
  {
    DotsTable(id, parent, limits);
    hide TableOk;
    var after := ns.(inodes := ns.inodes[id := inode], dirs := ns.dirs[id := Dots(id, parent)]);
    assert !ns.IsDirectory(id);
    TablesLong(ns, limits);
    forall d ensures d in after.dirs <==> after.IsDirectory(d) {
      assert d in ns.dirs <==> ns.IsDirectory(d);
    }
    forall d | d in after.dirs ensures TableOk(d, after.dirs[d], limits) && |after.dirs[d]| >= 2 && Up(after.dirs, d) in after.dirs {
      if d != id {
        assert Up(ns.dirs, d) in ns.dirs;
      }
    }
    forall d, i | d in after.dirs && 2 <= i < |after.dirs[d]| && !after.dirs[d][i].deleted
      ensures NameOk(after, d, after.dirs[d][i])
    {
      assert NameOk(ns, d, ns.dirs[d][i]);
    }
  }

  /** Nothing names an inode that does not exist. */
  lemma NoLinksToMissing(ns: Namespace, id: u64, limits: Limits)
    requires TreeOk(ns, limits) && id !in ns.inodes
    ensures Links(ns.dirs, id) == {}
  {
    hide TableOk;
    forall d: u64, i ensures (d, i) !in Links(ns.dirs, id) {
      LinkMeans(ns.dirs, id, d, i);
      if d in ns.dirs && 2 <= i < |ns.dirs[d]| && !ns.dirs[d][i].deleted {
        assert NameOk(ns, d, ns.dirs[d][i]);
      }
    }
  }

  // ----- Burying a name -----

  lemma BuryTable(d: u64, entries: Entries, k: nat, limits: Limits)
    requires TableOk(d, entries, limits) && 2 <= k < |entries| && !entries[k].deleted
    ensures TableOk(d, Bury(entries, k), limits)
  {
    BuryKeepsOrder(entries, k);
    assert Bury(entries, k)[k].Validate(limits) == entries[k].Validate(limits);
    forall i | 2 <= i < |entries| ensures !Bury(entries, k)[i].IsDot() && Bury(entries, k)[i].Validate(limits).Ok? && Bury(entries, k)[i].recordLength != 0 {
    }
  }

  lemma BuryTree(ns: Namespace, d: u64, k: nat, limits: Limits)
    requires TreeOk(ns, limits) && d in ns.dirs && 2 <= k < |ns.dirs[d]| && !ns.dirs[d][k].deleted
    ensures TreeOk(ns.(dirs := ns.dirs[d := Bury(ns.dirs[d], k)]), limits)
  {
    assert TableOk(d, ns.dirs[d], limits);
    BuryTable(d, ns.dirs[d], k, limits);
    hide TableOk;
    forall i | 2 <= i < |ns.dirs[d]| && !Bury(ns.dirs[d], k)[i].deleted ensures NameOk(ns, d, Bury(ns.dirs[d], k)[i]) {
      assert NameOk(ns, d, ns.dirs[d][i]);
    }
    ChangeTable(ns, d, Bury(ns.dirs[d], k), limits);
  }

  lemma BuryLinks(ns: Namespace, d: u64, k: nat)
    requires d in ns.dirs && 2 <= k < |ns.dirs[d]| && !ns.dirs[d][k].deleted
    requires LinksOkBut(ns, ns.dirs[d][k].inode)
    ensures var after := ns.(dirs := ns.dirs[d := Bury(ns.dirs[d], k)]);
            var id := ns.dirs[d][k].inode;
            && LinksOkBut(after, id)
            && |Links(ns.dirs, id)| == |Links(after.dirs, id)| + 1
  {
    hide Links;
    var after := ns.(dirs := ns.dirs[d := Bury(ns.dirs[d], k)]);
    var gone := ns.dirs[d][k].inode;
    forall id | id in ns.inodes && id != gone ensures LinkCountOk(after, id) {
      assert LinkCountOk(ns, id);
      LinksAfterBury(ns.dirs, d, k, id);
    }
    LinksAfterBury(ns.dirs, d, k, gone);
  }

  // ----- Erasing an inode -----

  lemma EraseTree(ns: Namespace, id: u64, limits: Limits)
    requires TreeOk(ns, limits) && id in ns.inodes && ns.inodes[id].inodeType != Directory && Links(ns.dirs, id) == {}
    ensures TreeOk(ns.(inodes := ns.inodes - {id}), limits)
  {
    hide TableOk;
    var after := ns.(inodes := ns.inodes - {id});
    assert forall d :: ns.IsDirectory(d) <==> after.IsDirectory(d);
    forall d, i | d in after.dirs && 2 <= i < |after.dirs[d]| && !after.dirs[d][i].deleted
      ensures NameOk(after, d, after.dirs[d][i])
    {
      assert NameOk(ns, d, ns.dirs[d][i]);
      LinkMeans(ns.dirs, id, d, i);
    }
  }

  /** A directory without names in it is nobody's parent. */
  lemma VacantIsNoParent(ns: Namespace, c: u64, d: u64, limits: Limits)
    requires TreeOk(ns, limits) && LinksOkBut(ns, c)
    requires c in ns.dirs && Vacant(ns.dirs[c]) && d in ns.dirs && d != c && c != ns.root
    ensures |ns.dirs[d]| >= 2 && Up(ns.dirs, d) != c
  {
    hide Links;
    assert TableOk(d, ns.dirs[d], limits) && TableOk(c, ns.dirs[c], limits);
    hide TableOk;
    if d != ns.root {
      assert ns.IsDirectory(d);
      assert LinkCountOk(ns, d);
      var p :| p in Links(ns.dirs, d);
      LinkMeans(ns.dirs, d, p.0, p.1);
      assert NameOk(ns, p.0, ns.dirs[p.0][p.1]);
      if p.0 == c {
        NoNamesInVacant(ns, c, p.1, limits);
      }
    }
  }

  lemma NoNamesInVacant(ns: Namespace, c: u64, i: int, limits: Limits)
    requires c in ns.dirs && TableOk(c, ns.dirs[c], limits) && Vacant(ns.dirs[c]) && 2 <= i < |ns.dirs[c]|
    ensures ns.dirs[c][i].deleted
  {
  }

  lemma EraseDirectoryTree(ns: Namespace, c: u64, limits: Limits)
    requires TreeOk(ns, limits) && LinksOkBut(ns, c)
    requires c in ns.dirs && c != ns.root && Vacant(ns.dirs[c]) && Links(ns.dirs, c) == {}
    ensures TreeOk(ns.(inodes := ns.inodes - {c}, dirs := ns.dirs - {c}), limits)
  {
    hide Links, TableOk, Vacant;
    var after := ns.(inodes := ns.inodes - {c}, dirs := ns.dirs - {c});
    assert forall d :: after.IsDirectory(d) <==> ns.IsDirectory(d) && d != c;
    TablesLong(ns, limits);
    forall d | d in after.dirs ensures TableOk(d, after.dirs[d], limits) && |after.dirs[d]| >= 2 && Up(after.dirs, d) in after.dirs {
      VacantIsNoParent(ns, c, d, limits);
      assert Up(ns.dirs, d) in ns.dirs;
    }
    forall d, i | d in after.dirs && 2 <= i < |after.dirs[d]| && !after.dirs[d][i].deleted
      ensures NameOk(after, d, after.dirs[d][i])
    {
      assert NameOk(ns, d, ns.dirs[d][i]);
      LinkMeans(ns.dirs, c, d, i);
    }
  }

  lemma EraseDirectoryLinks(ns: Namespace, c: u64, limits: Limits)
    requires TreeOk(ns, limits) && LinksOkBut(ns, c) && c in ns.dirs && Vacant(ns.dirs[c])
    ensures LinksOk(ns.(inodes := ns.inodes - {c}, dirs := ns.dirs - {c}))
  {
    hide Links;
    var after := ns.(inodes := ns.inodes - {c}, dirs := ns.dirs - {c});
    assert TableOk(c, ns.dirs[c], limits);
    forall id | id in after.inodes ensures LinkCountOk(after, id) {
      assert LinkCountOk(ns, id);
      LinksAfterErase(ns.dirs, c, id);
    }
  }

  // ----- Moving a directory to another parent -----

  lemma ReparentTable(d: u64, entries: Entries, parent: u64, limits: Limits)
    requires TableOk(d, entries, limits)
    ensures TableOk(d, entries[1 := entries[1].(inode := parent)], limits)
  {
    var after := entries[1 := entries[1].(inode := parent)];
    assert after[1].Key() == entries[1].Key();
    forall i, j | 0 <= i < j < |after| && !after[i].deleted && !after[j].deleted ensures after[i].Key() != after[j].Key() {
      assert entries[i].Key() != entries[j].Key();
    }
    forall i, j | 0 <= i < |after| && 0 <= j < |after| && !after[i].deleted && after[j].deleted && after[i].Key() == after[j].Key()
      ensures j < i
    {
      assert entries[i].Key() == entries[j].Key();
    }
  }
}
