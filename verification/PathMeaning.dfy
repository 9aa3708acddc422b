/** Where a path leads, as a relation over single lookups, and that resolution finds exactly that. */
module PathMeaning {
  import opened Base
  import opened Inodes
  import opened Directories
  import opened Paths
  import opened PathTheorems
  import opened FsModel
  import opened FsRemovePath

  // ----- The relation -----

  /** Where a path or link target starts: an absolute one at the root, a relative one where it is used. */
  function Origin(ns: Namespace, at: u64, path: text): u64 {
    if path != [] && path[0] == SLASH then ns.root else at
  }

  /** From directory `d` the components lead to `id` past exactly `links` symbolic links. An empty
      component and "." stay, ".." goes to the parent, a name is looked up. Where the name is that of a
      symbolic link, and it is not the last component or the last one is to be followed, the link's own
      target comes first, from the root or from `d`, and all its links are followed; the rest of the
      components go on from where it leads. */
  ghost predicate Leads(ns: Namespace, d: u64, components: Components, follow: bool, links: nat, id: u64, limits: Limits)
    decreases links, |components|, 0
  {
    if components == [] then links == 0 && id == d
    else
      var name, rest := components[0], components[1..];
      if name == [] || name == DOT then Leads(ns, d, rest, follow, links, id, limits)
      else if name == DOTDOT then
        ns.Find(d, DOTDOT).Some? && Leads(ns, ns.Find(d, DOTDOT).value.inode, rest, follow, links, id, limits)
      else
        var found := Lookup(ns, d, name);
        && found.Some?
        && if IsFollowed(ns, found.value, rest, follow)
           then LinkLeads(ns, d, ns.inodes[found.value].symlinkTarget, rest, follow, links, id, limits)
           else Leads(ns, found.value, rest, follow, links, id, limits)
  }

  predicate IsFollowed(ns: Namespace, id: u64, rest: Components, follow: bool) {
    id in ns.inodes && ns.inodes[id].inodeType == SymbolicLink && (rest != [] || follow)
  }

  /** A link with this target leads on from directory `d`: first its target, then the rest. */
  ghost predicate LinkLeads(ns: Namespace, d: u64, target: text, rest: Components, follow: bool, links: nat, id: u64, limits: Limits)
    decreases links, 0, 1
  {
    exists inner: nat, y: u64 :: LinkPasses(ns, d, target, rest, follow, links, inner, y, id, limits)
  }

  /** The target leads to `y` past `inner` links, and the rest on from there. */
  ghost predicate LinkPasses(ns: Namespace, d: u64, target: text, rest: Components, follow: bool, links: nat, inner: nat, y: u64, id: u64, limits: Limits)
    decreases links, 0, 0
  {
    && inner < links && Split(target, limits).Ok?
    && Leads(ns, Origin(ns, d, target), Split(target, limits).value, true, inner, y, limits)
    && Leads(ns, y, rest, follow, links - 1 - inner, id, limits)
  }

  // ----- Joining and cutting component lists -----

  lemma {:induction false} JoinLeads(ns: Namespace, d: u64, a: Components, b: Components, follow: bool, m: nat, n: nat, y: u64, id: u64, limits: Limits)
    requires Leads(ns, d, a, true, m, y, limits) && Leads(ns, y, b, follow, n, id, limits)
    requires b == [] ==> follow
    ensures Leads(ns, d, a + b, follow, m + n, id, limits)
    decreases m, |a|
  {
    hide Lookup, Namespace.Find, Split;
    if a == [] {
      assert a + b == b;
    } else {
      var name, rest := a[0], a[1..];
      assert (a + b)[0] == name && (a + b)[1..] == rest + b;
      if name == [] || name == DOT {
        JoinLeads(ns, d, rest, b, follow, m, n, y, id, limits);
      } else if name == DOTDOT {
        JoinLeads(ns, ns.Find(d, DOTDOT).value.inode, rest, b, follow, m, n, y, id, limits);
      } else {
        var x := Lookup(ns, d, name).value;
        FollowedSame(ns, x, rest, b, follow);
        if IsFollowed(ns, x, rest, true) {
          var target := ns.inodes[x].symlinkTarget;
          assert LinkLeads(ns, d, target, rest, true, m, y, limits);
          var inner: nat, z: u64 :| LinkPasses(ns, d, target, rest, true, m, inner, z, y, limits);
          JoinLeads(ns, z, rest, b, follow, m - 1 - inner, n, y, id, limits);
          assert m - 1 - inner + n == m + n - 1 - inner;
          assert LinkPasses(ns, d, target, rest + b, follow, m + n, inner, z, id, limits);
        } else {
          JoinLeads(ns, x, rest, b, follow, m, n, y, id, limits);
        }
      }
    }
  }

  lemma FollowedSame(ns: Namespace, x: u64, rest: Components, b: Components, follow: bool)
    requires b == [] ==> follow
    ensures IsFollowed(ns, x, rest + b, follow) == IsFollowed(ns, x, rest, true)
  {
  }

  lemma {:induction false} CutLeads(ns: Namespace, d: u64, a: Components, b: Components, follow: bool, n: nat, id: u64, limits: Limits)
    returns (m: nat, y: u64)
    requires Leads(ns, d, a + b, follow, n, id, limits) && (b == [] ==> follow)
    ensures m <= n && Leads(ns, d, a, true, m, y, limits) && Leads(ns, y, b, follow, n - m, id, limits)
    decreases n, |a|
  {
    hide Lookup, Namespace.Find, Split;
    if a == [] {
      assert a + b == b;
      m, y := 0, d;
    } else {
      var name, rest := a[0], a[1..];
      assert (a + b)[0] == name && (a + b)[1..] == rest + b;
      if name == [] || name == DOT {
        m, y := CutLeads(ns, d, rest, b, follow, n, id, limits);
      } else if name == DOTDOT {
        m, y := CutLeads(ns, ns.Find(d, DOTDOT).value.inode, rest, b, follow, n, id, limits);
      } else {
        var x := Lookup(ns, d, name).value;
        FollowedSame(ns, x, rest, b, follow);
        if IsFollowed(ns, x, rest, true) {
          var target := ns.inodes[x].symlinkTarget;
          assert LinkLeads(ns, d, target, rest + b, follow, n, id, limits);
          var inner: nat, z: u64 :| LinkPasses(ns, d, target, rest + b, follow, n, inner, z, id, limits);
          var k;
          k, y := CutLeads(ns, z, rest, b, follow, n - 1 - inner, id, limits);
          m := inner + 1 + k;
          assert m - 1 - inner == k;
          assert LinkPasses(ns, d, target, rest, true, m, inner, z, y, limits);
        } else {
          m, y := CutLeads(ns, x, rest, b, follow, n, id, limits);
        }
      }
    }
  }

  // ----- The loop -----

  /** The places a cursor may come to: what it leads to is `id`, past `links` links more. */
  ghost predicate Ends(ns: Namespace, c: Cursor, follow: bool, links: nat, id: u64, limits: Limits) {
    Leads(ns, c.current, c.pending, follow, links, id, limits)
  }

  /** A turn keeps where the cursor leads, and counts the link it follows. */
  lemma AdvanceLeads(ns: Namespace, c: Cursor, follow: bool, limits: Limits, budget: nat, links: nat, id: u64)
    requires c.pending != [] && Bounded(c, limits) && (limits.maxSymlinkDepth == TWO32 - 1 ==> budget == 0)
    requires Advance(ns, c, follow, limits, budget).Ok?
    ensures var next := Advance(ns, c, follow, limits, budget).value;
            var used := next.followed - c.followed;
            && 0 <= used <= 1
            && (Ends(ns, c, follow, links + used, id, limits) <==> Ends(ns, next, follow, links, id, limits))
            && (used == 1 ==> !Ends(ns, c, follow, 0, id, limits))
  {
    hide Namespace.Find, Split, Leads, Bounded;
    AdvanceProgress(ns, c, follow, limits, budget);
    var next := Advance(ns, c, follow, limits, budget).value;
    var name, rest := c.pending[0], c.pending[1..];
    LeadsStep(ns, c.current, c.pending, follow, links, id, limits);
    if name != [] && name != DOT && name != DOTDOT {
      var x := ns.Find(c.current, name).value.inode;
      assert Lookup(ns, c.current, name) == Some(x);
      if IsFollowed(ns, x, rest, follow) {
        var target := ns.inodes[x].symlinkTarget;
        LeadsStep(ns, c.current, c.pending, follow, links + 1, id, limits);
        LeadsStep(ns, c.current, c.pending, follow, 0, id, limits);
        NoLinkNoLead(ns, c.current, target, rest, follow, id, limits);
        LinkIs(ns, c.current, target, rest, follow, links, id, limits);
      }
    }
  }

  lemma LeadsStep(ns: Namespace, d: u64, components: Components, follow: bool, links: nat, id: u64, limits: Limits)
    requires components != []
    ensures var name, rest := components[0], components[1..];
            Leads(ns, d, components, follow, links, id, limits) <==>
              if name == [] || name == DOT then Leads(ns, d, rest, follow, links, id, limits)
              else if name == DOTDOT then
                ns.Find(d, DOTDOT).Some? && Leads(ns, ns.Find(d, DOTDOT).value.inode, rest, follow, links, id, limits)
              else
                var found := Lookup(ns, d, name);
                && found.Some?
                && if IsFollowed(ns, found.value, rest, follow)
                   then LinkLeads(ns, d, ns.inodes[found.value].symlinkTarget, rest, follow, links, id, limits)
                   else Leads(ns, found.value, rest, follow, links, id, limits)
  {
    hide Lookup, Namespace.Find, LinkLeads, IsFollowed;
  }

  lemma NoLinkNoLead(ns: Namespace, d: u64, target: text, rest: Components, follow: bool, id: u64, limits: Limits)
    ensures !LinkLeads(ns, d, target, rest, follow, 0, id, limits)
  {
    hide Split, Leads;
  }

  /** Putting the target's components in front of the rest is following it first. */
  lemma LinkIs(ns: Namespace, d: u64, target: text, rest: Components, follow: bool, links: nat, id: u64, limits: Limits)
    requires Split(target, limits).Ok? && (rest == [] ==> follow)
    ensures LinkLeads(ns, d, target, rest, follow, links + 1, id, limits) <==>
            Leads(ns, Origin(ns, d, target), Split(target, limits).value + rest, follow, links, id, limits)
  {
    hide Split, Leads;
    var components, start := Split(target, limits).value, Origin(ns, d, target);
    if LinkLeads(ns, d, target, rest, follow, links + 1, id, limits) {
      var inner: nat, y: u64 :| LinkPasses(ns, d, target, rest, follow, links + 1, inner, y, id, limits);
      JoinLeads(ns, start, components, rest, follow, inner, links - inner, y, id, limits);
    }
    if Leads(ns, start, components + rest, follow, links, id, limits) {
      var m, y := CutLeads(ns, start, components, rest, follow, links, id, limits);
      assert LinkPasses(ns, d, target, rest, follow, links + 1, m, y, id, limits);
    }
  }

  /** What the loop finds is where the components lead, past as many links as it counted. */
  lemma {:induction false} FoundLeads(ns: Namespace, c: Cursor, follow: bool, limits: Limits, budget: nat)
    requires Bounded(c, limits) && (limits.maxSymlinkDepth == TWO32 - 1 ==> budget == 0)
    requires ResolveFrom(ns, c, follow, limits, budget).Ok?
    ensures var r := ResolveFrom(ns, c, follow, limits, budget).value;
            && c.followed <= r.followed <= limits.maxSymlinkDepth
            && Ends(ns, c, follow, r.followed - c.followed, r.current, limits)
    decreases limits.maxSymlinkDepth - c.followed, |c.pending|
  {
    hide Advance, Ends;
    if c.pending == [] {
      EndsHere(ns, c, follow, 0, c.current, limits);
    } else {
      AdvanceProgress(ns, c, follow, limits, budget);
      var next := Advance(ns, c, follow, limits, budget).value;
      FoundLeads(ns, next, follow, limits, budget);
      var r := ResolveFrom(ns, next, follow, limits, budget).value;
      AdvanceLeads(ns, c, follow, limits, budget, r.followed - next.followed, r.current);
    }
  }

  lemma EndsHere(ns: Namespace, c: Cursor, follow: bool, links: nat, id: u64, limits: Limits)
    requires c.pending == []
    ensures Ends(ns, c, follow, links, id, limits) <==> links == 0 && id == c.current
  {
  }

  /** A component that leads somewhere is taken without an error, if the links left allow it. */
  lemma AdvanceOk(ns: Namespace, c: Cursor, follow: bool, limits: Limits, links: nat, id: u64)
    requires c.pending != [] && Bounded(c, limits) && limits.maxSymlinkDepth < TWO32 - 1
    requires Ends(ns, c, follow, links, id, limits) && c.followed + links <= limits.maxSymlinkDepth
    ensures Advance(ns, c, follow, limits, TWO32).Ok?
  {
    hide Namespace.Find, Split, Leads;
    var name, rest := c.pending[0], c.pending[1..];
    LeadsStep(ns, c.current, c.pending, follow, links, id, limits);
    if name != [] && name != DOT && name != DOTDOT {
      var x := Lookup(ns, c.current, name).value;
      if IsFollowed(ns, x, rest, follow) {
        assert links > 0;
      }
    }
  }

  lemma {:induction false} LeadsFound(ns: Namespace, c: Cursor, follow: bool, limits: Limits, links: nat, id: u64)
    requires Bounded(c, limits) && limits.maxSymlinkDepth < TWO32 - 1
    requires Ends(ns, c, follow, links, id, limits) && c.followed + links <= limits.maxSymlinkDepth
    ensures var r := ResolveFrom(ns, c, follow, limits, TWO32);
            r.Ok? && r.value.current == id && r.value.followed == c.followed + links
    decreases limits.maxSymlinkDepth - c.followed, |c.pending|
  {
    hide Advance, Ends;
    if c.pending == [] {
      EndsHere(ns, c, follow, links, id, limits);
    } else {
      AdvanceOk(ns, c, follow, limits, links, id);
      AdvanceProgress(ns, c, follow, limits, TWO32);
      var next := Advance(ns, c, follow, limits, TWO32).value;
      AdvanceLeads(ns, c, follow, limits, TWO32, if links > 0 then links - 1 else 0, id);
      AdvanceLeads(ns, c, follow, limits, TWO32, links, id);
      LeadsFound(ns, next, follow, limits, links - (next.followed - c.followed), id);
    }
  }

  // ----- Resolution -----

  /** The path leads to `id` past exactly `links` links. */
  ghost predicate PathLeads(ns: Namespace, path: text, working: u64, follow: bool, links: nat, id: u64, limits: Limits) {
    Split(path, limits).Ok? && Leads(ns, Origin(ns, working, path), Split(path, limits).value, follow, links, id, limits)
  }

  /** What a path resolves to it leads to, past as many links as resolution reports. */
  lemma ResolvedLeads(ns: Namespace, path: text, working: u64, follow: bool, limits: Limits)
    requires Resolve(ns, path, working, follow, limits).Ok?
    ensures var r := Resolve(ns, path, working, follow, limits).value;
            r.followed <= limits.maxSymlinkDepth && PathLeads(ns, path, working, follow, r.followed, r.inode, limits)
  {
    hide Split, ResolveFrom, Leads;
    FoundLeads(ns, Start(ns, path, working, Split(path, limits).value), follow, limits, ExpansionLimit(limits));
  }

  /** Where the expansion limit never decides, a path resolves to an inode exactly if it leads there past
      no more links than the limit allows. */
  lemma ResolvesExactly(ns: Namespace, path: text, working: u64, follow: bool, id: u64, limits: Limits)
    requires NeverDecides(limits)
    ensures (Resolve(ns, path, working, follow, limits).Ok? && Resolve(ns, path, working, follow, limits).value.inode == id) <==>
            exists links: nat :: links <= limits.maxSymlinkDepth && PathLeads(ns, path, working, follow, links, id, limits)
    ensures forall links: nat :: links <= limits.maxSymlinkDepth && PathLeads(ns, path, working, follow, links, id, limits) ==>
              Resolve(ns, path, working, follow, limits).Ok? && Resolve(ns, path, working, follow, limits).value.followed == links
  {
    hide Resolve, PathLeads, NeverDecides;
    if Resolve(ns, path, working, follow, limits).Ok? {
      ResolvedLeads(ns, path, working, follow, limits);
    }
    forall links: nat | links <= limits.maxSymlinkDepth && PathLeads(ns, path, working, follow, links, id, limits)
      ensures Resolve(ns, path, working, follow, limits).Ok?
      ensures Resolve(ns, path, working, follow, limits).value.inode == id
      ensures Resolve(ns, path, working, follow, limits).value.followed == links
    {
      LeadsResolves(ns, path, working, follow, links, id, limits);
    }
  }

  lemma LeadsResolves(ns: Namespace, path: text, working: u64, follow: bool, links: nat, id: u64, limits: Limits)
    requires NeverDecides(limits)
    requires links <= limits.maxSymlinkDepth && PathLeads(ns, path, working, follow, links, id, limits)
    ensures var r := Resolve(ns, path, working, follow, limits);
            r.Ok? && r.value.inode == id && r.value.followed == links
  {
    if limits.maxSymlinkDepth == TWO32 - 1 {
      NoComponents(path, limits);
      assert Split(path, limits).value == [];
    } else {
      hide Split, ResolveFrom, Leads, NeverDecides, ExpansionLimit;
      ExpansionLimitUnreachable(ns, path, working, follow, limits);
      LeadsFound(ns, Start(ns, path, working, Split(path, limits).value), follow, limits, links, id);
    }
  }

  /** At the largest depth limit the expansion limit wraps to zero, which suffices only for paths without
      components. */
  lemma NoComponents(path: text, limits: Limits)
    requires NeverDecides(limits) && limits.maxSymlinkDepth == TWO32 - 1 && Split(path, limits).Ok?
    ensures |Split(path, limits).value| == 0
  {
    SplitCount(path, limits);
    hide Split, MostComponents;
    assert ExpansionLimit(limits) == 0;
    MulMonotone(MostComponents(limits), 1, TWO32);
  }

  // ----- The parent of a new name -----

  /** The last component that is neither empty nor "." is at place `k`, and is not "..". */
  ghost predicate LastName(components: Components, k: nat) {
    && k < |components| && components[k] != [] && components[k] != DOT && components[k] != DOTDOT
    && forall i :: k < i < |components| ==> components[i] == [] || components[i] == DOT
  }

  lemma {:induction false} DropIs(components: Components)
    ensures var kept := DropTrailingDots(components);
            && |kept| <= |components| && kept == components[..|kept|]
            && (forall i :: |kept| <= i < |components| ==> components[i] == [] || components[i] == DOT)
            && (kept != [] ==> kept[|kept| - 1] != [] && kept[|kept| - 1] != DOT)
    decreases |components|
  {
    if components != [] {
      var front := components[..|components| - 1];
      DropIs(front);
      assert forall i :: 0 <= i < |front| ==> front[i] == components[i];
      var kept := DropTrailingDots(front);
      assert front[..|kept|] == components[..|kept|];
    }
  }

  /** How much room components take, each with the slash in front of it. */
  function Room(components: Components): nat
    decreases |components|
  {
    if components == [] then 0 else Room(components[..|components| - 1]) + 1 + |components[|components| - 1]|
  }

  lemma {:induction false} RoomPrefix(components: Components, k: nat)
    requires k <= |components|
    ensures Room(components[..k]) <= Room(components)
    decreases |components|
  {
    if k < |components| {
      assert components[..|components| - 1][..k] == components[..k];
      RoomPrefix(components[..|components| - 1], k);
    } else {
      assert components[..k] == components;
    }
  }

  lemma {:induction false} SplitFromRoom(path: text, position: nat, found: Components, limits: Limits)
    requires position <= |path| && SplitFrom(path, position, found, limits).Ok?
    ensures Room(SplitFrom(path, position, found, limits).value) <=
            Room(found) + |path| - position + (if position < |path| && path[position] != SLASH then 1 else 0)
    decreases |path| - position
  {
    var start := SkipSlashes(path, position);
    if start < |path| {
      var end := NextSlash(path, start);
      var grown := found + [path[start..end]];
      assert grown[..|grown| - 1] == found;
      SplitFromRoom(path, end, grown, limits);
    }
  }

  /** A parent path of given components. */
  ghost predicate SplitsInto(path: text, absolute: bool, components: Components, limits: Limits) {
    && path != [] && path[0] == (if absolute then SLASH else 46)
    && (if absolute && components != [] then |path| == Room(components) else |path| == Room(components) + 1)
    && (path[|path| - 1] == SLASH <==> absolute && components == [])
    && Split(path, limits) == Ok(if absolute then components else [DOT] + components)
  }

  lemma SplitsNext(path: text, absolute: bool, front: Components, name: text, limits: Limits)
    requires SplitsInto(path, absolute, front, limits) && Plain(name) && |name| <= limits.maxNameBytes
    requires |front| + 1 < limits.maxPathComponents && Room(front) + |name| + 2 <= limits.maxPathBytes
    ensures SplitsInto(ChildPath(path, name), absolute, front + [name], limits)
  {
    hide Split;
    SplitChildIs(path, name, limits);
    assert (front + [name])[..|front|] == front;
    assert [DOT] + front + [name] == [DOT] + (front + [name]);
    assert name[|name| - 1] in name;
  }

  /** The text of a parent path splits into the components it was made of. */
  lemma {:induction false} ParentSplits(absolute: bool, components: Components, limits: Limits)
    requires GoodComponents(components, limits) && |components| < limits.maxPathComponents && limits.maxNameBytes >= 1
    requires Room(components) + 1 <= limits.maxPathBytes
    ensures SplitsInto(ParentPath(absolute, components), absolute, components, limits)
    decreases |components|
  {
    hide Split, SplitsInto, Plain;
    if components == [] {
      ShortSplits(absolute, limits);
    } else {
      var last := |components| - 1;
      var front, name := components[..last], components[last];
      assert forall i :: 0 <= i < |front| ==> front[i] == components[i];
      ParentSplits(absolute, front, limits);
      var path := ParentPath(absolute, front);
      IntoPath(path, absolute, front, limits);
      ParentChild(absolute, components);
      SplitsNext(path, absolute, front, name, limits);
      assert front + [name] == components;
    }
  }

  lemma ParentChild(absolute: bool, components: Components)
    requires components != [] && ParentPath(absolute, components[..|components| - 1]) != []
    ensures ParentPath(absolute, components) ==
            ChildPath(ParentPath(absolute, components[..|components| - 1]), components[|components| - 1])
  {
  }

  lemma IntoPath(path: text, absolute: bool, components: Components, limits: Limits)
    requires SplitsInto(path, absolute, components, limits)
    ensures path != []
  {
    hide Split, Room;
  }

  lemma ShortSplits(absolute: bool, limits: Limits)
    requires limits.maxPathComponents >= 1 && limits.maxNameBytes >= 1 && limits.maxPathBytes >= 1
    ensures SplitsInto(ParentPath(absolute, []), absolute, [], limits)
  {
    if absolute {
      SkipIs([SLASH], 0, 1);
    } else {
      SkipIs(DOT, 0, 0);
      NextIs(DOT, 0, 1);
      SkipIs(DOT, 1, 1);
      assert DOT[0..1] == DOT;
      assert SplitFrom(DOT, 1, [DOT], limits) == Ok([DOT]);
      assert [] + [DOT] == [DOT] && [DOT] + [] == [DOT];
    }
  }

  ghost predicate ParentLeads(ns: Namespace, path: text, working: u64, k: nat, links: nat, d: u64, name: text, limits: Limits)
  {
    && Split(path, limits).Ok?
    && var components := Split(path, limits).value;
       && LastName(components, k) && components[k] == name && links <= limits.maxSymlinkDepth
       && Leads(ns, Origin(ns, working, path), components[..k], true, links, d, limits)
  }

  lemma LastIsKept(components: Components, k: nat)
    requires LastName(components, k)
    ensures DropTrailingDots(components) == components[..k + 1]
  {
    DropIs(components);
    var kept := DropTrailingDots(components);
    assert |kept| > k;
    assert kept[|kept| - 1] == components[|kept| - 1];
  }

  /** The front of a path is itself a path that resolution accepts. */
  lemma FrontSplits(path: text, k: nat, limits: Limits)
    requires Split(path, limits).Ok? && k < |Split(path, limits).value|
    ensures var components := Split(path, limits).value;
            var absolute := path != [] && path[0] == SLASH;
            SplitsInto(ParentPath(absolute, components[..k]), absolute, components[..k], limits)
  {
    hide Plain, SplitsInto, ParentPath;
    var components := Split(path, limits).value;
    SplitGood(path, limits);
    SplitFromRoom(path, 0, [], limits);
    RoomPrefix(components, k + 1);
    assert components[..k + 1][..k] == components[..k] && components[..k + 1][k] == components[k];
    PlainShort(components[k]);
    ParentSplits(path != [] && path[0] == SLASH, components[..k], limits);
  }

  lemma PlainShort(name: text)
    requires Plain(name)
    ensures |name| >= 1
  {
  }

  lemma DotLeads(ns: Namespace, d: u64, components: Components, links: nat, id: u64, limits: Limits)
    ensures Leads(ns, d, [DOT] + components, true, links, id, limits) <==> Leads(ns, d, components, true, links, id, limits)
  {
    hide Lookup, Namespace.Find;
    assert ([DOT] + components)[1..] == components;
  }

  lemma FrontLeads(ns: Namespace, path: text, working: u64, k: nat, links: nat, d: u64, limits: Limits)
    requires Split(path, limits).Ok? && k < |Split(path, limits).value|
    ensures var components := Split(path, limits).value;
            var absolute := path != [] && path[0] == SLASH;
            PathLeads(ns, ParentPath(absolute, components[..k]), working, true, links, d, limits) <==>
            Leads(ns, Origin(ns, working, path), components[..k], true, links, d, limits)
  {
    hide Split, Leads, ParentPath;
    FrontSplits(path, k, limits);
    DotLeads(ns, working, Split(path, limits).value[..k], links, d, limits);
  }

  /** A new name can be given exactly if the path's last component proper is a name and what comes before it
      leads to a directory, all links followed: that directory and that name are the answer. */
  lemma ParentResolvesExactly(ns: Namespace, path: text, working: u64, d: u64, name: text, limits: Limits)
    requires NeverDecides(limits)
    ensures ResolveParent(ns, path, working, limits) == Ok((d, name)) <==>
            ns.IsDirectory(d) && exists k: nat, links: nat :: ParentLeads(ns, path, working, k, links, d, name, limits)
  {
    hide Split, Leads, ParentPath, Resolve, NeverDecides, PathLeads, DropTrailingDots, Namespace.IsDirectory;
    if Split(path, limits).Ok? {
      var components := Split(path, limits).value;
      if ResolveParent(ns, path, working, limits) == Ok((d, name)) {
        ParentFound(ns, path, working, d, name, limits);
      }
      if ns.IsDirectory(d) && exists k: nat, links: nat :: ParentLeads(ns, path, working, k, links, d, name, limits) {
        var k: nat, links: nat :| ParentLeads(ns, path, working, k, links, d, name, limits);
        ParentGiven(ns, path, working, k, links, d, name, limits);
      }
    }
  }

  lemma ParentFound(ns: Namespace, path: text, working: u64, d: u64, name: text, limits: Limits)
    requires ResolveParent(ns, path, working, limits) == Ok((d, name))
    ensures ns.IsDirectory(d) && exists k: nat, links: nat :: ParentLeads(ns, path, working, k, links, d, name, limits)
  {
    hide Split, Leads, ParentPath, Resolve, PathLeads, DropTrailingDots;
    var components := Split(path, limits).value;
    SplitGood(path, limits);
    DropIs(components);
    var kept := DropTrailingDots(components);
    var k := |kept| - 1;
    assert kept[..k] == components[..k] && kept[k] == components[k];
    var parentPath := ParentPath(path != [] && path[0] == SLASH, components[..k]);
    ResolvedLeads(ns, parentPath, working, true, limits);
    var links := Resolve(ns, parentPath, working, true, limits).value.followed;
    FrontLeads(ns, path, working, k, links, d, limits);
    assert ParentLeads(ns, path, working, k, links, d, name, limits);
  }

  lemma ParentGiven(ns: Namespace, path: text, working: u64, k: nat, links: nat, d: u64, name: text, limits: Limits)
    requires NeverDecides(limits)
    requires ns.IsDirectory(d) && ParentLeads(ns, path, working, k, links, d, name, limits)
    ensures ResolveParent(ns, path, working, limits) == Ok((d, name))
  {
    hide Split, Leads, ParentPath, Resolve, NeverDecides, PathLeads, DropTrailingDots, Namespace.IsDirectory;
    var components := Split(path, limits).value;
    LastIsKept(components, k);
    assert components[..k + 1][..k] == components[..k];
    FrontLeads(ns, path, working, k, links, d, limits);
    var parentPath := ParentPath(path != [] && path[0] == SLASH, components[..k]);
    LeadsResolves(ns, parentPath, working, true, links, d, limits);
  }

  // ----- Splitting undoes rendering -----

  lemma {:induction false} RenderIsParent(components: Components, limits: Limits)
    requires GoodComponents(components, limits) && |components| < limits.maxPathComponents && limits.maxNameBytes >= 1
    requires Room(components) + 1 <= limits.maxPathBytes
    ensures Render(components) == ParentPath(true, components)
    decreases |components|
  {
    hide Split, Plain;
    if components != [] {
      var front := components[..|components| - 1];
      assert forall i :: 0 <= i < |front| ==> front[i] == components[i];
      RenderIsParent(front, limits);
      ParentSplits(true, front, limits);
    }
  }

  /** The components of a rendered path are those it was rendered from. */
  lemma SplitRender(components: Components, limits: Limits)
    requires GoodComponents(components, limits) && |components| < limits.maxPathComponents && limits.maxNameBytes >= 1
    requires Room(components) + 1 <= limits.maxPathBytes
    ensures Split(Render(components), limits) == Ok(components)
  {
    hide Split, Render, ParentPath;
    RenderIsParent(components, limits);
    ParentSplits(true, components, limits);
  }

  // ----- Names differing in case -----

  /** The same byte, or the same ASCII letter in the other case. */
  predicate SameLetter(a: byte, b: byte) {
    a == b || (65 <= a <= 90 && b == a + 32) || (65 <= b <= 90 && a == b + 32)
  }

  predicate SameName(a: text, b: text) {
    |a| == |b| && forall i :: 0 <= i < |a| ==> SameLetter(a[i], b[i])
  }

  lemma SameKeys(a: text, b: text)
    ensures NormalizeName(a) == NormalizeName(b) <==> SameName(a, b)
  {
    if NormalizeName(a) == NormalizeName(b) {
      forall i | 0 <= i < |a| ensures SameLetter(a[i], b[i]) {
        assert NormalizeName(a)[i] == NormalizeName(b)[i];
      }
    }
  }

  /** In a table without active names that differ only in case, a name finds the active entry whose name is the
      same but for case, and nothing else. */
  lemma FindsSameName(ns: Namespace, d: u64, name: text, i: nat)
    requires d in ns.dirs && UniqueNames(ns.dirs[d]) && i < |ns.dirs[d]| && !ns.dirs[d][i].deleted
    ensures ns.Find(d, name) == Some(ns.dirs[d][i]) && FindIndex(ns.dirs[d], NormalizeName(name)) == Some(i) <==>
            SameName(name, ns.dirs[d][i].name)
    ensures ns.Find(d, name).Some? ==> exists k: nat :: k < |ns.dirs[d]| && !ns.dirs[d][k].deleted && SameName(name, ns.dirs[d][k].name)
  {
    hide UniqueNames;
    SameKeys(name, ns.dirs[d][i].name);
    FindUnique(ns.dirs[d], i);
    if ns.Find(d, name).Some? {
      var k := FindIndex(ns.dirs[d], NormalizeName(name)).value;
      SameKeys(name, ns.dirs[d][k].name);
    }
  }
}
