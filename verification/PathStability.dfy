/** How resolution behaves when names disappear, and when a name is added at the end of a path. */
module PathStability {
  import opened Base
  import opened Inodes
  import opened Directories
  import opened Paths
  import opened PathTheorems
  import opened Trees

  /** A later state of a namespace in which things have only been removed. */
  ghost predicate Shrunk(before: Namespace, after: Namespace) {
    && after.root == before.root
    && (forall id :: id in after.inodes ==> id in before.inodes && SameFile(before.inodes[id], after.inodes[id]))
    && (forall d :: d in after.dirs ==> d in before.dirs && Thinned(before.dirs[d], after.dirs[d]))
  }

  /** Only the link count may differ. */
  predicate SameFile(before: Inode, after: Inode) {
    after == before.(linkCount := after.linkCount)
  }

  /** Entry by entry the same, but for new tombstones. */
  ghost predicate Thinned(before: Entries, after: Entries) {
    && |after| == |before|
    && forall i :: 0 <= i < |before| ==> after[i] == before[i] || after[i] == before[i].(deleted := true)
  }

  lemma ShrunkReflexive(ns: Namespace)
    ensures Shrunk(ns, ns)
  {
  }

  lemma ThinnedTransitive(a: Entries, b: Entries, c: Entries)
    requires Thinned(a, b) && Thinned(b, c)
    ensures Thinned(a, c)
  {
    forall i | 0 <= i < |a| ensures c[i] == a[i] || c[i] == a[i].(deleted := true) {
      assert b[i] == a[i] || b[i] == a[i].(deleted := true);
    }
  }

  lemma ShrunkTransitive(a: Namespace, b: Namespace, c: Namespace)
    requires Shrunk(a, b) && Shrunk(b, c)
    ensures Shrunk(a, c)
  {
    hide Thinned;
    forall d | d in c.dirs ensures d in a.dirs && Thinned(a.dirs[d], c.dirs[d]) {
      assert d in b.dirs;
      ThinnedTransitive(a.dirs[d], b.dirs[d], c.dirs[d]);
    }
    forall id | id in c.inodes ensures id in a.inodes && SameFile(a.inodes[id], c.inodes[id]) {
      assert id in b.inodes;
    }
  }

  // ----- Removal can only make a resolution fail -----

  lemma ThinnedFind(before: Entries, after: Entries, key: text)
    requires Thinned(before, after) && UniqueNames(before)
    ensures FindIndex(after, key).Some? ==>
              FindIndex(before, key) == FindIndex(after, key)
              && after[FindIndex(after, key).value] == before[FindIndex(after, key).value]
  {
    var found := FindIndex(after, key);
    if found.Some? {
      var i := found.value;
      assert after[i] == before[i];
      FindUnique(before, i);
    }
  }

  lemma ShrunkFind(before: Namespace, after: Namespace, d: u64, name: text, limits: Limits)
    requires Shrunk(before, after) && TreeOk(before, limits)
    ensures after.Find(d, name).Some? ==> before.Find(d, name) == after.Find(d, name)
  {
    if d in after.dirs {
      assert TableOk(d, before.dirs[d], limits);
      hide TableOk;
      ThinnedFind(before.dirs[d], after.dirs[d], NormalizeName(name)) by {
        UniqueTable(d, before.dirs[d], limits);
      }
    }
  }

  lemma UniqueTable(d: u64, entries: Entries, limits: Limits)
    requires TableOk(d, entries, limits)
    ensures UniqueNames(entries)
  {
  }

  lemma ShrunkAdvance(before: Namespace, after: Namespace, c: Cursor, follow: bool, limits: Limits, budget: nat)
    requires Shrunk(before, after) && TreeOk(before, limits) && c.pending != []
    requires Advance(after, c, follow, limits, budget).Ok?
    ensures Advance(before, c, follow, limits, budget) == Advance(after, c, follow, limits, budget)
  {
    hide TreeOk, Namespace.Find, Split;
    var component := c.pending[0];
    if component == DOTDOT {
      ShrunkFind(before, after, c.current, DOTDOT, limits);
    } else if component != [] && component != DOT {
      ShrunkFind(before, after, c.current, component, limits);
      assert SameFile(before.inodes[c.current], after.inodes[c.current]);
      var id := after.Find(c.current, component).value.inode;
      assert SameFile(before.inodes[id], after.inodes[id]);
    }
  }

  lemma {:induction false} ShrunkResolveFrom(before: Namespace, after: Namespace, c: Cursor, follow: bool, limits: Limits, budget: nat)
    requires Bounded(c, limits) && (limits.maxSymlinkDepth == TWO32 - 1 ==> budget == 0)
    requires Shrunk(before, after) && TreeOk(before, limits)
    requires ResolveFrom(after, c, follow, limits, budget).Ok?
    ensures ResolveFrom(before, c, follow, limits, budget) == ResolveFrom(after, c, follow, limits, budget)
    decreases limits.maxSymlinkDepth - c.followed, |c.pending|
  {
    hide TreeOk, Shrunk, Advance, Bounded;
    if c.pending != [] {
      ShrunkAdvance(before, after, c, follow, limits, budget);
      AdvanceProgress(after, c, follow, limits, budget);
      ShrunkResolveFrom(before, after, Advance(after, c, follow, limits, budget).value, follow, limits, budget);
    }
  }

  /** What still resolves after removals resolves to the same as before. */
  lemma ShrunkResolve(before: Namespace, after: Namespace, path: text, follow: bool, limits: Limits)
    requires Shrunk(before, after) && TreeOk(before, limits)
    requires ResolveCursor(after, path, after.root, follow, limits).Ok?
    ensures ResolveCursor(before, path, before.root, follow, limits) == ResolveCursor(after, path, after.root, follow, limits)
  {
    hide TreeOk, ResolveFrom;
    var c := Start(after, path, after.root, Split(path, limits).value);
    assert c == Start(before, path, before.root, Split(path, limits).value);
    ShrunkResolveFrom(before, after, c, follow, limits, ExpansionLimit(limits));
  }

  // ----- A name at the end of a path -----

  function Extend(c: Cursor, name: text): Cursor {
    c.(pending := c.pending + [name])
  }

  /** With one more component pending, a turn does the same, unless the final component was a link
      that the shorter path leaves alone. */
  lemma AdvanceExtended(ns: Namespace, c: Cursor, name: text, limits: Limits, budget: nat)
    requires c.pending != [] && Advance(ns, c, false, limits, budget).Ok?
    requires Advance(ns, c, false, limits, budget).value.pending == [] ==>
               ns.IsDirectory(Advance(ns, c, false, limits, budget).value.current)
    ensures Advance(ns, Extend(c, name), false, limits, budget) ==
            Ok(Extend(Advance(ns, c, false, limits, budget).value, name))
  {
    hide Namespace.Find, Split;
    var next := Advance(ns, c, false, limits, budget).value;
    assert (c.pending + [name])[0] == c.pending[0];
    assert (c.pending + [name])[1..] == c.pending[1..] + [name];
    if next.followed != c.followed {
      var id := ns.Find(c.current, c.pending[0]).value.inode;
      var components := Split(ns.inodes[id].symlinkTarget, limits).value;
      assert components + (c.pending[1..] + [name]) == components + c.pending[1..] + [name];
    }
  }

  lemma {:induction false} ResolveFromExtended(ns: Namespace, c: Cursor, name: text, limits: Limits, budget: nat)
    requires Bounded(c, limits) && (limits.maxSymlinkDepth == TWO32 - 1 ==> budget == 0)
    requires ResolveFrom(ns, c, false, limits, budget).Ok?
    requires ns.IsDirectory(ResolveFrom(ns, c, false, limits, budget).value.current)
    ensures Bounded(ResolveFrom(ns, c, false, limits, budget).value, limits)
    ensures ResolveFrom(ns, c, false, limits, budget).value.pending == []
    ensures ResolveFrom(ns, Extend(c, name), false, limits, budget) ==
            ResolveFrom(ns, Extend(ResolveFrom(ns, c, false, limits, budget).value, name), false, limits, budget)
    decreases limits.maxSymlinkDepth - c.followed, |c.pending|
  {
    hide Advance;
    if c.pending != [] {
      var next := Advance(ns, c, false, limits, budget).value;
      AdvanceProgress(ns, c, false, limits, budget);
      if next.pending == [] {
        assert ResolveFrom(ns, next, false, limits, budget) == Ok(next);
      }
      AdvanceExtended(ns, c, name, limits, budget);
      ResolveFromExtended(ns, next, name, limits, budget);
    }
  }
}
