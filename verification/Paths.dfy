/** Path resolution: splitting, lexical normalisation and the expansion of symbolic links. */
module Paths {
  import opened Base
  import opened Inodes
  import opened Directories

  type Components = seq<text>

  /** What resolution reads: inodes, directory tables and the root. */
  datatype Namespace = Namespace(inodes: map<u64, Inode>, dirs: Dirs, root: u64) {
    predicate IsDirectory(id: u64) {
      id in inodes && inodes[id].inodeType == Directory
    }

    function Find(directory: u64, name: text): Option<DirectoryEntry> {
      Directories.Find(dirs, directory, name)
    }
  }

  // ----- split -----

  function SkipSlashes(path: text, position: nat): (at: nat)
    requires position <= |path|
    ensures position <= at <= |path|
    ensures at < |path| ==> path[at] != SLASH
    ensures forall i :: position <= i < at ==> path[i] == SLASH
    decreases |path| - position
  {
    if position < |path| && path[position] == SLASH then SkipSlashes(path, position + 1) else position
  }

  function NextSlash(path: text, position: nat): (at: nat)
    requires position <= |path|
    ensures position <= at <= |path|
    ensures at < |path| ==> path[at] == SLASH
    ensures forall i :: position <= i < at ==> path[i] != SLASH
    decreases |path| - position
  {
    if position < |path| && path[position] != SLASH then NextSlash(path, position + 1) else position
  }

  /** The components from `position` on, after `found`. */
  function SplitFrom(path: text, position: nat, found: Components, limits: Limits): Result<Components>
    requires position <= |path|
    decreases |path| - position
  {
    var start := SkipSlashes(path, position);
    if start == |path| then
      Ok(found)
    else
      var end := NextSlash(path, start);
      if end - start > limits.maxNameBytes then Err(InvalidName)
      else if |found| + 1 > limits.maxPathComponents then Err(ResourceLimit)
      else SplitFrom(path, end, found + [path[start..end]], limits)
  }

  predicate Malformed(path: text, limits: Limits) {
    path == [] || |path| > limits.maxPathBytes || 0 in path
  }

  function Split(path: text, limits: Limits): Result<Components> {
    if Malformed(path, limits) then Err(InvalidPath) else SplitFrom(path, 0, [], limits)
  }

  predicate Plain(name: text) {
    name != [] && SLASH !in name && 0 !in name
  }

  predicate GoodComponents(components: Components, limits: Limits) {
    && |components| <= limits.maxPathComponents
    && forall i :: 0 <= i < |components| ==> Plain(components[i]) && |components[i]| <= limits.maxNameBytes
  }

  lemma {:induction false} SplitFromGood(path: text, position: nat, found: Components, limits: Limits)
    requires position <= |path| && 0 !in path && GoodComponents(found, limits)
    requires SplitFrom(path, position, found, limits).Ok?
    ensures GoodComponents(SplitFrom(path, position, found, limits).value, limits)
    decreases |path| - position
  {
    var start := SkipSlashes(path, position);
    if start < |path| {
      var end := NextSlash(path, start);
      var component := path[start..end];
      assert forall i :: 0 <= i < |component| ==> component[i] == path[start + i];
      SplitFromGood(path, end, found + [component], limits);
    }
  }

  /** Components are nonempty, hold no slash and no zero byte, and stay within the limits. */
  lemma SplitGood(path: text, limits: Limits)
    requires Split(path, limits).Ok?
    ensures GoodComponents(Split(path, limits).value, limits)
  {
    SplitFromGood(path, 0, [], limits);
  }

  method SplitPath(path: text, limits: Limits) returns (r: Result<Components>)
    ensures r == Split(path, limits)
  {
    if path == [] || |path| > limits.maxPathBytes || 0 in path {
      return Err(InvalidPath);
    }
    var components: Components := [];
    var position := 0;
    while position < |path|
      invariant 0 <= position <= |path|
      invariant SplitFrom(path, position, components, limits) == SplitFrom(path, 0, [], limits)
    {
      ghost var from := position;
      while position < |path| && path[position] == SLASH
        invariant from <= position <= |path|
        invariant SkipSlashes(path, position) == SkipSlashes(path, from)
      {
        position := position + 1;
      }
      if position == |path| {
        break;
      }
      var end := NextSlash(path, position);
      var component := path[position..end];
      if |component| > limits.maxNameBytes {
        return Err(InvalidName);
      }
      components := components + [component];
      if |components| > limits.maxPathComponents {
        return Err(ResourceLimit);
      }
      position := end;
    }
    return Ok(components);
  }

  // ----- normalize -----

  /** "." is nothing, ".." takes the last name back, anything else is pushed. */
  function PushLexical(stack: Components, component: text): Components {
    if component == [] || component == DOT then stack
    else if component == DOTDOT then (if stack == [] then stack else stack[..|stack| - 1])
    else stack + [component]
  }

  function Lexical(stack: Components, components: Components): Components
    decreases |components|
  {
    if components == [] then stack else Lexical(PushLexical(stack, components[0]), components[1..])
  }

  /** An absolute path of the given components. */
  function Render(components: Components): text {
    [SLASH] + Join(components)
  }

  function Join(components: Components): text
    decreases |components|
  {
    if components == [] then []
    else if |components| == 1 then components[0]
    else Join(components[..|components| - 1]) + [SLASH] + components[|components| - 1]
  }

  function NormalizePath(path: text, limits: Limits): Result<text> {
    var components :- Split(path, limits);
    Ok(Render(Lexical([], components)))
  }

  method JoinComponents(components: Components) returns (output: text)
    ensures output == Render(components)
  {
    output := [SLASH];
    var index := 0;
    while index < |components|
      invariant 0 <= index <= |components|
      invariant output == Render(components[..index])
    {
      assert components[..index + 1][..index] == components[..index];
      if index > 0 {
        output := output + [SLASH];
      }
      output := output + components[index];
      index := index + 1;
    }
    assert components[..index] == components;
  }

  method NormalizePathText(path: text, limits: Limits) returns (r: Result<text>)
    ensures r == NormalizePath(path, limits)
  {
    var split := SplitPath(path, limits);
    if split.Err? {
      return Err(split.code);
    }
    var components := split.value;
    var normalized: Components := [];
    var index := 0;
    assert components[0..] == components;
    while index < |components|
      invariant 0 <= index <= |components|
      invariant Lexical(normalized, components[index..]) == Lexical([], components)
    {
      var component := components[index];
      assert components[index..][1..] == components[index + 1..];
      index := index + 1;
      if component == [] || component == DOT {
        continue;
      }
      if component == DOTDOT {
        if normalized != [] {
          normalized := normalized[..|normalized| - 1];
        }
        continue;
      }
      normalized := normalized + [component];
    }
    var output := JoinComponents(normalized);
    return Ok(output);
  }

  // ----- resolve -----

  /** The running variables of the resolution loop. */
  datatype Cursor = Cursor(
    current: u64,
    parent: u64,
    pending: Components,
    canonical: Components,
    followed: u32,
    processed: u32
  )

  /** `max_path_components * (max_symlink_depth + 1u)` in 32-bit arithmetic. */
  function ExpansionLimit(limits: Limits): u32 {
    Wrap32(limits.maxPathComponents * Wrap32(limits.maxSymlinkDepth + 1))
  }

  /** One turn of the loop, with `budget` for the number of components taken. */
  function Advance(ns: Namespace, c: Cursor, follow: bool, limits: Limits, budget: nat): Result<Cursor>
    requires c.pending != []
  {
    var processed := Wrap32(c.processed + 1);
    if processed > budget then
      Err(ResourceLimit)
    else
      var component := c.pending[0];
      var next := c.(pending := c.pending[1..], processed := processed);
      if component == [] || component == DOT then
        Ok(next)
      else if component == DOTDOT then
        GoUp(ns, next)
      else
        Descend(ns, next, component, follow, limits)
  }

  function GoUp(ns: Namespace, c: Cursor): Result<Cursor> {
    var up := ns.Find(c.current, DOTDOT);
    if up.None? then
      Err(InvalidDirectory)
    else
      var canonical := if c.canonical == [] then [] else c.canonical[..|c.canonical| - 1];
      Ok(c.(current := up.value.inode, parent := up.value.inode, canonical := canonical))
  }

  function Descend(ns: Namespace, c: Cursor, component: text, follow: bool, limits: Limits): Result<Cursor> {
    if !ns.IsDirectory(c.current) then
      Err(NotDirectory)
    else
      var entry := ns.Find(c.current, component);
      if entry.None? then
        Err(NotFound)
      else
        var id := entry.value.inode;
        if id !in ns.inodes then
          Err(InvalidInode)
        else if ns.inodes[id].inodeType == SymbolicLink && (c.pending != [] || follow) then
          FollowLink(ns, c, ns.inodes[id].symlinkTarget, limits)
        else
          Ok(c.(current := id, parent := c.current, canonical := c.canonical + [component]))
  }

  /** The target's components go in front of those still pending. */
  function FollowLink(ns: Namespace, c: Cursor, target: text, limits: Limits): Result<Cursor> {
    var followed := Wrap32(c.followed + 1);
    if followed > limits.maxSymlinkDepth then
      Err(LoopDetected)
    else
      var components :- Split(target, limits);
      if target != [] && target[0] == SLASH then
        Ok(c.(current := ns.root, parent := ns.root, canonical := [], pending := components + c.pending, followed := followed))
      else
        Ok(c.(parent := c.current, pending := components + c.pending, followed := followed))
  }

  /** Holds for the first cursor and after every turn. At the largest depth limit the 32-bit budget
      wraps to zero, so the first turn already fails. */
  predicate Bounded(c: Cursor, limits: Limits) {
    c.followed <= limits.maxSymlinkDepth && (limits.maxSymlinkDepth == TWO32 - 1 ==> c.processed == 0)
  }

  /** A turn takes one component for good, or uses up one of the symbolic links left. */
  lemma AdvanceProgress(ns: Namespace, c: Cursor, follow: bool, limits: Limits, budget: nat)
    requires c.pending != [] && Bounded(c, limits)
    requires limits.maxSymlinkDepth == TWO32 - 1 ==> budget == 0
    requires Advance(ns, c, follow, limits, budget).Ok?
    ensures var next := Advance(ns, c, follow, limits, budget).value;
            && Bounded(next, limits)
            && ((next.followed == c.followed && |next.pending| < |c.pending|) || next.followed == c.followed + 1)
  {
  }

  /** The loop. Its measure is lexicographic: symbolic links left, then components pending. */
  function ResolveFrom(ns: Namespace, c: Cursor, follow: bool, limits: Limits, budget: nat): Result<Cursor>
    requires Bounded(c, limits)
    requires limits.maxSymlinkDepth == TWO32 - 1 ==> budget == 0
    decreases limits.maxSymlinkDepth - c.followed, |c.pending|
  {
    if c.pending == [] then
      Ok(c)
    else
      var next := Advance(ns, c, follow, limits, budget);
      if next.Err? then
        Err(next.code)
      else
        AdvanceProgress(ns, c, follow, limits, budget);
        ResolveFrom(ns, next.value, follow, limits, budget)
  }

  datatype ResolvedPath = ResolvedPath(inode: u64, parent: u64, name: text, canonical: text, followed: u32)

  function Start(ns: Namespace, path: text, working: u64, components: Components): Cursor {
    var start := if path != [] && path[0] == SLASH then ns.root else working;
    Cursor(start, start, components, [], 0, 0)
  }

  /** The cursor at the end of the loop: its canonical components are the resolved path. */
  function ResolveCursor(ns: Namespace, path: text, working: u64, follow: bool, limits: Limits): Result<Cursor> {
    var components :- Split(path, limits);
    ResolveFrom(ns, Start(ns, path, working, components), follow, limits, ExpansionLimit(limits))
  }

  function Finish(c: Cursor): ResolvedPath {
    var name := if c.canonical == [] then [SLASH] else c.canonical[|c.canonical| - 1];
    ResolvedPath(c.current, c.parent, name, Render(c.canonical), c.followed)
  }

  function Resolve(ns: Namespace, path: text, working: u64, follow: bool, limits: Limits): Result<ResolvedPath> {
    var c :- ResolveCursor(ns, path, working, follow, limits);
    Ok(Finish(c))
  }

  /** Trailing empty and "." components do not name anything to create. */
  function DropTrailingDots(components: Components): Components
    decreases |components|
  {
    if components != [] && (components[|components| - 1] == [] || components[|components| - 1] == DOT) then
      DropTrailingDots(components[..|components| - 1])
    else
      components
  }

  function ParentPath(absolute: bool, components: Components): text
    decreases |components|
  {
    if components == [] then (if absolute then [SLASH] else DOT)
    else
      var front := ParentPath(absolute, components[..|components| - 1]);
      (if front != [] && front[|front| - 1] == SLASH then front else front + [SLASH]) + components[|components| - 1]
  }

  function ResolveParent(ns: Namespace, path: text, working: u64, limits: Limits): Result<(u64, text)> {
    var components :- Split(path, limits);
    var kept := DropTrailingDots(components);
    if kept == [] || kept[|kept| - 1] == DOTDOT then
      Err(InvalidPath)
    else
      var parentPath := ParentPath(path != [] && path[0] == SLASH, kept[..|kept| - 1]);
      var parent :- Resolve(ns, parentPath, working, true, limits);
      if !ns.IsDirectory(parent.inode) then Err(NotDirectory) else Ok((parent.inode, kept[|kept| - 1]))
  }

  method ResolvePath(ns: Namespace, path: text, working: u64, follow: bool, limits: Limits)
    returns (r: Result<ResolvedPath>)
    ensures r == Resolve(ns, path, working, follow, limits)
  {
    var initial := SplitPath(path, limits);
    if initial.Err? {
      return Err(initial.code);
    }
    var c := Start(ns, path, working, initial.value);
    while c.pending != []
      invariant Bounded(c, limits)
      invariant ResolveFrom(ns, c, follow, limits, ExpansionLimit(limits)).Ok? <==>
                ResolveCursor(ns, path, working, follow, limits).Ok?
      invariant ResolveFrom(ns, c, follow, limits, ExpansionLimit(limits)) ==
                ResolveCursor(ns, path, working, follow, limits)
      decreases limits.maxSymlinkDepth - c.followed, |c.pending|
    {
      var next := ResolveStep(ns, c, follow, limits);
      if next.Err? {
        return Err(next.code);
      }
      AdvanceProgress(ns, c, follow, limits, ExpansionLimit(limits));
      c := next.value;
    }
    var canonical := JoinComponents(c.canonical);
    var name := if c.canonical == [] then [SLASH] else c.canonical[|c.canonical| - 1];
    return Ok(ResolvedPath(c.current, c.parent, name, canonical, c.followed));
  }

  /** The body of the loop. */
  method ResolveStep(ns: Namespace, c: Cursor, follow: bool, limits: Limits) returns (r: Result<Cursor>)
    requires c.pending != []
    ensures r == Advance(ns, c, follow, limits, ExpansionLimit(limits))
  {
    var current, parent, pending, canonical, followed := c.current, c.parent, c.pending, c.canonical, c.followed;
    var processed := Wrap32(c.processed + 1);
    if processed > ExpansionLimit(limits) {
      return Err(ResourceLimit);
    }
    var component := pending[0];
    pending := pending[1..];
    if component == [] || component == DOT {
      return Ok(Cursor(current, parent, pending, canonical, followed, processed));
    }
    if component == DOTDOT {
      var up := ns.Find(current, DOTDOT);
      if up.None? {
        return Err(InvalidDirectory);
      }
      current := up.value.inode;
      parent := current;
      if canonical != [] {
        canonical := canonical[..|canonical| - 1];
      }
      return Ok(Cursor(current, parent, pending, canonical, followed, processed));
    }
    if !ns.IsDirectory(current) {
      return Err(NotDirectory);
    }
    var entry := ns.Find(current, component);
    if entry.None? {
      return Err(NotFound);
    }
    parent := current;
    current := entry.value.inode;
    if current !in ns.inodes {
      return Err(InvalidInode);
    }
    var target := ns.inodes[current];
    var final := pending == [];
    if target.inodeType == SymbolicLink && (!final || follow) {
      followed := Wrap32(followed + 1);
      if followed > limits.maxSymlinkDepth {
        return Err(LoopDetected);
      }
      var components := SplitPath(target.symlinkTarget, limits);
      if components.Err? {
        return Err(components.code);
      }
      if target.symlinkTarget != [] && target.symlinkTarget[0] == SLASH {
        current, parent, canonical := ns.root, ns.root, [];
      } else {
        current := parent;
      }
      return Ok(Cursor(current, parent, components.value + pending, canonical, followed, processed));
    }
    return Ok(Cursor(current, parent, pending, canonical + [component], followed, processed));
  }

  method BuildParentPath(absolute: bool, components: Components) returns (parentPath: text)
    ensures parentPath == ParentPath(absolute, components)
  {
    parentPath := if absolute then [SLASH] else DOT;
    var index := 0;
    while index < |components|
      invariant 0 <= index <= |components|
      invariant parentPath == ParentPath(absolute, components[..index]) && parentPath != []
    {
      assert components[..index + 1][..index] == components[..index];
      if parentPath[|parentPath| - 1] != SLASH {
        parentPath := parentPath + [SLASH];
      }
      parentPath := parentPath + components[index];
      index := index + 1;
    }
    assert components[..index] == components;
  }

  method ResolveParentPath(ns: Namespace, path: text, working: u64, limits: Limits) returns (r: Result<(u64, text)>)
    ensures r == ResolveParent(ns, path, working, limits)
  {
    hide Resolve, Namespace.IsDirectory;
    var split := SplitPath(path, limits);
    if split.Err? {
      return Err(split.code);
    }
    var components := split.value;
    while components != [] && (components[|components| - 1] == [] || components[|components| - 1] == DOT)
      invariant DropTrailingDots(components) == DropTrailingDots(split.value)
      decreases |components|
    {
      components := components[..|components| - 1];
    }
    if components == [] || components[|components| - 1] == DOTDOT {
      return Err(InvalidPath);
    }
    var name := components[|components| - 1];
    components := components[..|components| - 1];
    var parentPath := BuildParentPath(path != [] && path[0] == SLASH, components);
    var parent := ResolvePath(ns, parentPath, working, true, limits);
    if parent.Err? {
      return Err(parent.code);
    }
    if !ns.IsDirectory(parent.value.inode) {
      return Err(NotDirectory);
    }
    return Ok((parent.value.inode, name));
  }
}
