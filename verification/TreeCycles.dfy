/** Directories that hang from the root are not above themselves. */
module TreeCycles {
  import opened Base
  import opened Inodes
  import opened Directories
  import opened Paths
  import opened PathTheorems
  import opened Trees
  import opened FsRemoveFrame
  import opened FsRooted

  /** Going up `k` times by "..". */
  function StepsUp(dirs: Dirs, d: u64, k: nat): Option<u64>
    decreases k
  {
    if k == 0 then Some(d)
    else if d in dirs && |dirs[d]| >= 2 then StepsUp(dirs, Up(dirs, d), k - 1)
    else None
  }

  lemma {:induction false} StepsLast(dirs: Dirs, d: u64, k: nat)
    requires StepsUp(dirs, d, k).Some? && StepsUp(dirs, d, k).value in dirs && |dirs[StepsUp(dirs, d, k).value]| >= 2
    ensures StepsUp(dirs, d, k + 1) == Some(Up(dirs, StepsUp(dirs, d, k).value))
    decreases k
  {
    if k > 0 {
      StepsLast(dirs, Up(dirs, d), k - 1);
    }
  }

  lemma {:induction false} RootSteps(ns: Namespace, k: nat, limits: Limits)
    requires TreeOk(ns, limits)
    ensures StepsUp(ns.dirs, ns.root, k) == Some(ns.root)
  {
    TreeRoot(ns, limits);
    if k > 0 {
      hide TreeOk;
      RootSteps(ns, k - 1, limits);
    }
  }

  /** A directory that hangs from the root and is above itself is the root. */
  lemma {:induction false} NoCycle(ns: Namespace, d: u64, c: nat, n: nat, limits: Limits)
    requires TreeOk(ns, limits) && d in ns.dirs && c > 0 && StepsUp(ns.dirs, d, c) == Some(d)
    requires BelowIn(ns.dirs, ns.root, d, n)
    ensures d == ns.root
    decreases n
  {
    if d != ns.root {
      TreeParent(ns, limits, d);
      hide TreeOk;
      StepsLast(ns.dirs, d, c);
      RootSteps(ns, c - 1, limits);
      NoCycle(ns, Up(ns.dirs, d), c, n - 1, limits);
    }
  }

  lemma {:induction false} BelowSteps(dirs: Dirs, top: u64, d: u64, n: nat) returns (k: nat)
    requires BelowIn(dirs, top, d, n)
    ensures StepsUp(dirs, d, k) == Some(top)
    decreases n
  {
    if d == top {
      k := 0;
    } else {
      var more := BelowSteps(dirs, top, Up(dirs, d), n - 1);
      k := more + 1;
    }
  }

  /** A directory other than the root that hangs from the root is not above its parent. */
  lemma NotAbove(ns: Namespace, x: u64, limits: Limits)
    requires TreeOk(ns, limits) && x in ns.dirs && x != ns.root && Below(ns.dirs, ns.root, x)
    ensures |ns.dirs[x]| >= 2 && !Below(ns.dirs, x, Up(ns.dirs, x))
  {
    TreeParent(ns, limits, x);
    hide TreeOk, BelowIn;
    if Below(ns.dirs, x, Up(ns.dirs, x)) {
      var n: nat :| BelowIn(ns.dirs, x, Up(ns.dirs, x), n);
      var k := BelowSteps(ns.dirs, x, Up(ns.dirs, x), n);
      var m: nat :| BelowIn(ns.dirs, ns.root, x, m);
      NoCycle(ns, x, k + 1, m, limits);
    }
  }

  /** Nothing is below two directories that hang from the root and have the same parent. */
  lemma {:induction false} Siblings(ns: Namespace, x: u64, y: u64, d: u64, n: nat, limits: Limits)
    requires TreeOk(ns, limits) && x in ns.dirs && y in ns.dirs && x != y && x != ns.root && y != ns.root
    requires |ns.dirs[x]| >= 2 && |ns.dirs[y]| >= 2 && Up(ns.dirs, x) == Up(ns.dirs, y)
    requires Below(ns.dirs, ns.root, x) && Below(ns.dirs, ns.root, y) && BelowIn(ns.dirs, x, d, n)
    ensures !Below(ns.dirs, y, d)
    decreases n
  {
    hide TreeOk, Below;
    NotAbove(ns, x, limits);
    NotAbove(ns, y, limits);
    if d == x {
      if Below(ns.dirs, y, x) {
        BelowDown(ns.dirs, y, x);
      }
    } else {
      Siblings(ns, x, y, Up(ns.dirs, d), n - 1, limits);
      if Below(ns.dirs, y, d) && d != y {
        BelowDown(ns.dirs, y, d);
      }
      if d == y {
        BelowFrom(ns.dirs, x, Up(ns.dirs, d), n - 1);
      }
    }
  }

  lemma BelowFrom(dirs: Dirs, top: u64, d: u64, n: nat)
    requires BelowIn(dirs, top, d, n)
    ensures Below(dirs, top, d)
  {
  }
}
