/** Directory tables: entry lists with tombstones, searched by lower-cased name. */
module Directories {
  import opened Base
  import opened Inodes

  datatype DirectoryEntry = DirectoryEntry(
    inode: u64,
    entryType: InodeType,
    name: text,
    recordLength: u32,
    deleted: bool
  ) {
    function Key(): text {
      NormalizeName(name)
    }

    predicate Named(key: text) {
      !deleted && Key() == key
    }

    predicate IsDot() {
      name == DOT || name == DOTDOT
    }

    function Validate(limits: Limits): Result<()> {
      if inode == 0 then Err(InvalidInode)
      else if !NameFits(name, limits) || 0 in name then Err(InvalidName)
      else if !entryType.Usable() then Err(InvalidDirectory)
      else if recordLength != 0 && (recordLength < AlignedDirectoryLength(|name|) || recordLength % 8 != 0) then
        Err(InvalidDirectory)
      else Ok(())
    }
  }

  predicate NameFits(name: text, limits: Limits) {
    name != [] && |name| <= limits.maxNameBytes && SLASH !in name
  }

  type Entries = seq<DirectoryEntry>
  type Dirs = map<u64, Entries>

  /** Index of the first active entry of that lower-cased name. */
  function FindIndex(entries: Entries, key: text): (found: Option<nat>)
    ensures found.Some? ==> found.value < |entries| && entries[found.value].Named(key)
    ensures found.Some? ==> forall i :: 0 <= i < found.value ==> !entries[i].Named(key)
    ensures found.None? ==> forall i :: 0 <= i < |entries| ==> !entries[i].Named(key)
  {
    if entries == [] then None
    else if entries[0].Named(key) then Some(0)
    else
      var rest := FindIndex(entries[1..], key);
      assert forall i :: 0 <= i < |entries| - 1 ==> entries[1..][i] == entries[i + 1];
      if rest.None? then None else Some(rest.value + 1)
  }

  function Find(dirs: Dirs, directory: u64, name: text): Option<DirectoryEntry> {
    if directory !in dirs then None
    else
      var found := FindIndex(dirs[directory], NormalizeName(name));
      if found.None? then None else Some(dirs[directory][found.value])
  }

  function Dots(inode: u64, parent: u64): Entries {
    [DirectoryEntry(inode, Directory, DOT, AlignedDirectoryLength(1), false),
     DirectoryEntry(parent, Directory, DOTDOT, AlignedDirectoryLength(2), false)]
  }

  function TotalOf(dirs: Dirs, keys: seq<u64>): nat
    requires forall k :: k in keys ==> k in dirs
  {
    if keys == [] then 0 else |dirs[keys[0]]| + TotalOf(dirs, keys[1..])
  }

  /** Entries of all tables together, tombstones included. */
  function Total(dirs: Dirs): nat {
    TotalOf(dirs, SortedKeys(dirs.Keys))
  }

  predicate Vacant(entries: Entries) {
    forall i :: 0 <= i < |entries| ==> entries[i].deleted || entries[i].IsDot()
  }

  function Load(dirs: Dirs, inode: u64, entries: Entries, limits: Limits): Result<Dirs> {
    if inode == 0 || inode in dirs then Err(InvalidDirectory)
    else if |entries| > limits.maxDirectoryEntries then Err(ResourceLimit)
    else
      var _ :- ValidateAll(entries, limits);
      Ok(dirs[inode := entries])
  }

  function ValidateAll(entries: Entries, limits: Limits): (r: Result<()>)
    ensures r.Ok? <==> forall i :: 0 <= i < |entries| ==> entries[i].Validate(limits).Ok?
  {
    if entries == [] then Ok(())
    else
      assert forall i :: 0 <= i < |entries| - 1 ==> entries[1..][i] == entries[i + 1];
      var first := entries[0].Validate(limits);
      var rest := ValidateAll(entries[1..], limits);
      if first.Err? then first else rest
  }

  function Create(dirs: Dirs, inode: u64, parent: u64): Result<Dirs> {
    if inode == 0 || parent == 0 then Err(InvalidInode)
    else if inode in dirs then Err(AlreadyExists)
    else Ok(dirs[inode := Dots(inode, parent)])
  }

  function EraseDirectory(dirs: Dirs, inode: u64): Result<Dirs> {
    if inode !in dirs then Err(NotFound)
    else if !Vacant(dirs[inode]) then Err(DirectoryNotEmpty)
    else Ok(dirs - {inode})
  }

  function Add(dirs: Dirs, directory: u64, entry: DirectoryEntry, limits: Limits): Result<Dirs> {
    if directory !in dirs then Err(NotDirectory)
    else if entry.IsDot() then Err(InvalidName)
    else
      var _ :- entry.Validate(limits);
      if Find(dirs, directory, entry.name).Some? then Err(AlreadyExists)
      else if Total(dirs) >= limits.maxDirectoryEntries then Err(ResourceLimit)
      else
        var length := if entry.recordLength == 0 then AlignedDirectoryLength(|entry.name|) else entry.recordLength;
        Ok(dirs[directory := dirs[directory] + [entry.(recordLength := length)]])
  }

  /** The entry becomes a tombstone and is handed back as it was. */
  function Remove(dirs: Dirs, directory: u64, name: text): Result<(Dirs, DirectoryEntry)> {
    if name == DOT || name == DOTDOT then Err(PermissionDenied)
    else if directory !in dirs then Err(NotDirectory)
    else
      var found := FindIndex(dirs[directory], NormalizeName(name));
      if found.None? then Err(NotFound)
      else Ok((dirs[directory := Bury(dirs[directory], found.value)], dirs[directory][found.value]))
  }

  function Bury(entries: Entries, i: nat): Entries
    requires i < |entries|
  {
    entries[i := entries[i].(deleted := true)]
  }

  /** Index of the last tombstone of that lower-cased name. */
  function LastTombstone(entries: Entries, key: text): (found: Option<nat>)
    ensures found.Some? ==>
              found.value < |entries| && entries[found.value].deleted && entries[found.value].Key() == key
              && forall i :: found.value < i < |entries| ==> !(entries[i].deleted && entries[i].Key() == key)
    ensures found.None? ==> forall i :: 0 <= i < |entries| ==> !(entries[i].deleted && entries[i].Key() == key)
  {
    if entries == [] then None
    else
      var last := |entries| - 1;
      if entries[last].deleted && entries[last].Key() == key then Some(last)
      else LastTombstone(entries[..last], key)
  }

  function Undelete(dirs: Dirs, directory: u64, name: text): Dirs {
    if directory !in dirs then dirs
    else
      var found := LastTombstone(dirs[directory], NormalizeName(name));
      if found.None? then dirs
      else dirs[directory := dirs[directory][found.value := dirs[directory][found.value].(deleted := false)]]
  }

  predicate RenameTargetOk(name: text, limits: Limits) {
    NameFits(name, limits) && name != DOT && name != DOTDOT
  }

  /** Points the active ".." of a moved directory at its new parent. */
  function Reparent(dirs: Dirs, directory: u64, parent: u64): Option<Dirs> {
    if directory !in dirs then None
    else
      var found := FindIndex(dirs[directory], NormalizeName(DOTDOT));
      if found.None? then None
      else Some(dirs[directory := dirs[directory][found.value := dirs[directory][found.value].(inode := parent)]])
  }

  function Rename(dirs: Dirs, source: u64, sourceName: text, target: u64, targetName: text, limits: Limits)
    : (Dirs, Result<()>)
  {
    if !RenameTargetOk(targetName, limits) then (dirs, Err(InvalidName))
    else if Find(dirs, target, targetName).Some? then (dirs, Err(AlreadyExists))
    else
      match Remove(dirs, source, sourceName)
      case Err(code) => (dirs, Err(code))
      case Ok((without, removed)) =>
        var moved := Moved(removed, targetName);
        match Add(without, target, moved, limits)
        case Err(code) => (Undelete(without, source, sourceName), Err(code))
        case Ok(with) =>
          if moved.entryType == Directory && source != target then
            match Reparent(with, moved.inode, target)
            case None => (with, Err(InvalidDirectory))
            case Some(done) => (done, Ok(()))
          else (with, Ok(()))
  }

  function Moved(entry: DirectoryEntry, name: text): DirectoryEntry {
    entry.(name := name, recordLength := AlignedDirectoryLength(|name|), deleted := false)
  }

  // ----- Tombstones and the undo of a failed rename -----

  /** An active entry comes after every tombstone of its lower-cased name. */
  ghost predicate TombstonesFirst(entries: Entries) {
    forall i, j ::
      0 <= i < |entries| && 0 <= j < |entries| && !entries[i].deleted && entries[j].deleted
      && entries[i].Key() == entries[j].Key()
      ==> j < i
  }

  /** No two active entries share a lower-cased name. */
  ghost predicate UniqueNames(entries: Entries) {
    forall i, j ::
      0 <= i < j < |entries| && !entries[i].deleted && !entries[j].deleted ==> entries[i].Key() != entries[j].Key()
  }

  lemma BuryThenUndelete(dirs: Dirs, directory: u64, name: text)
    requires Remove(dirs, directory, name).Ok?
    requires TombstonesFirst(dirs[directory])
    ensures Undelete(Remove(dirs, directory, name).value.0, directory, name) == dirs
  {
    var key := NormalizeName(name);
    var entries := dirs[directory];
    var i := FindIndex(entries, key).value;
    var buried := Bury(entries, i);
    var found := LastTombstone(buried, key);
    assert buried[i].deleted && buried[i].Key() == key;
    assert found.value == i;
    assert buried[i := buried[i].(deleted := false)] == entries;
  }

  predicate HasParentEntry(dirs: Dirs, directory: u64) {
    directory in dirs && FindIndex(dirs[directory], NormalizeName(DOTDOT)).Some?
  }

  /** An active entry of a directory names one that has a ".." entry to redirect. */
  predicate MovableEntry(dirs: Dirs, entry: DirectoryEntry) {
    !entry.deleted && entry.entryType == Directory ==> HasParentEntry(dirs, entry.inode)
  }

  lemma DotKeys(name: text)
    ensures NormalizeName(name) == NormalizeName(DOTDOT) ==> name == DOTDOT
    ensures NormalizeName(name) == NormalizeName(DOT) ==> name == DOT
  {
    if NormalizeName(name) == NormalizeName(DOTDOT) {
      assert |name| == 2 && LowerByte(name[0]) == 46 && LowerByte(name[1]) == 46;
    }
    if NormalizeName(name) == NormalizeName(DOT) {
      assert |name| == 1 && LowerByte(name[0]) == 46;
    }
  }

  /** Burying an entry of another name, or appending one, keeps the ".." entry findable. */
  lemma ParentEntrySurvives(dirs: Dirs, directory: u64, name: text, target: u64, entry: DirectoryEntry, limits: Limits, d: u64)
    requires Remove(dirs, directory, name).Ok?
    requires Add(Remove(dirs, directory, name).value.0, target, entry, limits).Ok?
    requires HasParentEntry(dirs, d)
    ensures HasParentEntry(Add(Remove(dirs, directory, name).value.0, target, entry, limits).value, d)
  {
    var up := NormalizeName(DOTDOT);
    var at := FindIndex(dirs[d], up).value;
    DotKeys(name);
    var without: Dirs := Remove(dirs, directory, name).value.0;
    assert without[d][at].Named(up);
    var with: Dirs := Add(without, target, entry, limits).value;
    assert with[d][at].Named(up);
  }

  /** A rename that fails leaves every table as it was. */
  lemma FailedRenameRestores(dirs: Dirs, source: u64, sourceName: text, target: u64, targetName: text, limits: Limits)
    requires source in dirs ==> TombstonesFirst(dirs[source])
    requires source in dirs ==> forall i :: 0 <= i < |dirs[source]| ==> MovableEntry(dirs, dirs[source][i])
    ensures var (after, r) := Rename(dirs, source, sourceName, target, targetName, limits);
            r.Err? ==> after == dirs
  {
    hide Undelete, Add;
    var removed := Remove(dirs, source, sourceName);
    if removed.Ok? {
      BuryThenUndelete(dirs, source, sourceName);
      var moved := Moved(removed.value.1, targetName);
      if Add(removed.value.0, target, moved, limits).Ok? && moved.entryType == Directory {
        ParentEntrySurvives(dirs, source, sourceName, target, moved, limits, moved.inode);
      }
    }
  }

  lemma BuryKeepsOrder(entries: Entries, i: nat)
    requires i < |entries| && !entries[i].deleted
    requires TombstonesFirst(entries) && UniqueNames(entries)
    ensures TombstonesFirst(Bury(entries, i)) && UniqueNames(Bury(entries, i))
  {
    var buried := Bury(entries, i);
    forall a, b | 0 <= a < |buried| && 0 <= b < |buried| && !buried[a].deleted && buried[b].deleted
      && buried[a].Key() == buried[b].Key()
      ensures b < a
    {
      if b == i {
        assert entries[a].Key() == entries[i].Key();
      }
    }
  }

  lemma AppendKeepsOrder(entries: Entries, entry: DirectoryEntry)
    requires TombstonesFirst(entries) && UniqueNames(entries)
    requires !entry.deleted && FindIndex(entries, entry.Key()).None?
    ensures TombstonesFirst(entries + [entry]) && UniqueNames(entries + [entry])
  {
    forall i | 0 <= i < |entries| && !entries[i].deleted ensures entries[i].Key() != entry.Key() {
      assert !entries[i].Named(entry.Key());
    }
  }

  /** With unique names, whichever active entry carries a name is the one a search finds. */
  lemma FindUnique(entries: Entries, i: nat)
    requires UniqueNames(entries) && i < |entries| && !entries[i].deleted
    ensures FindIndex(entries, entries[i].Key()) == Some(i)
  {
    var key := entries[i].Key();
    assert entries[i].Named(key);
    assert FindIndex(entries, key).Some?;
  }

  // ----- The map from directory and lower-cased name to entry -----

  /** Two ways to write the same name of the same directory. */
  predicate SameSpot(d: u64, name: text, at: u64, spelled: text) {
    d == at && NormalizeName(name) == NormalizeName(spelled)
  }

  lemma FindAppended(entries: Entries, entry: DirectoryEntry, key: text)
    requires !entry.deleted && FindIndex(entries, entry.Key()).None?
    ensures FindIndex(entries + [entry], key) == if key == entry.Key() then Some(|entries|) else FindIndex(entries, key)
  {
    var grown := entries + [entry];
    assert forall i :: 0 <= i < |entries| ==> grown[i] == entries[i];
    var found := FindIndex(grown, key);
    if key == entry.Key() {
      assert grown[|entries|].Named(key);
      assert forall i :: 0 <= i < |entries| ==> !grown[i].Named(key);
    } else if found.Some? {
      assert entries[found.value].Named(key);
    }
  }

  /** Appending maps one more name to its entry. */
  lemma AppendFinds(dirs: Dirs, directory: u64, entry: DirectoryEntry, d: u64, name: text)
    requires directory in dirs && !entry.deleted && FindIndex(dirs[directory], entry.Key()).None?
    ensures Find(dirs[directory := dirs[directory] + [entry]], d, name) ==
            if SameSpot(d, name, directory, entry.name) then Some(entry) else Find(dirs, d, name)
  {
    if d == directory {
      FindAppended(dirs[directory], entry, NormalizeName(name));
    }
  }

  lemma FindBuried(entries: Entries, k: nat, key: text)
    requires k < |entries| && !entries[k].deleted && UniqueNames(entries)
    ensures FindIndex(Bury(entries, k), key) == if key == entries[k].Key() then None else FindIndex(entries, key)
  {
    var buried := Bury(entries, k);
    assert forall i :: 0 <= i < |entries| && i != k ==> buried[i] == entries[i];
    var found := FindIndex(buried, key);
    if key == entries[k].Key() {
      assert forall i :: 0 <= i < |entries| && i != k && !entries[i].deleted ==> entries[i].Key() != key;
    } else {
      assert !entries[k].Named(key) && !buried[k].Named(key);
      var before := FindIndex(entries, key);
      if found.Some? {
        assert entries[found.value].Named(key);
      }
      if before.Some? {
        assert buried[before.value].Named(key);
      }
    }
  }

  /** Removing takes one name out of the map. */
  lemma BuryFinds(dirs: Dirs, directory: u64, k: nat, d: u64, name: text)
    requires directory in dirs && k < |dirs[directory]| && !dirs[directory][k].deleted && UniqueNames(dirs[directory])
    ensures Find(dirs[directory := Bury(dirs[directory], k)], d, name) ==
            if SameSpot(d, name, directory, dirs[directory][k].name) then None else Find(dirs, d, name)
  {
    if d == directory {
      var key := NormalizeName(name);
      FindBuried(dirs[directory], k, key);
      var found := FindIndex(dirs[directory], key);
      if found.Some? && found.value == k {
        assert dirs[directory][k].Named(key);
      }
    }
  }

  lemma FindRedirected(entries: Entries, k: nat, inode: u64, key: text)
    requires k < |entries|
    ensures FindIndex(entries[k := entries[k].(inode := inode)], key) == FindIndex(entries, key)
  {
    var after := entries[k := entries[k].(inode := inode)];
    forall i | 0 <= i < |entries| ensures after[i].Named(key) == entries[i].Named(key) {
      assert after[i].Key() == entries[i].Key();
    }
  }

  /** Giving a directory another parent changes what ".." finds there and nothing else. */
  lemma ReparentFinds(dirs: Dirs, directory: u64, parent: u64, d: u64, name: text)
    requires Reparent(dirs, directory, parent).Some?
    ensures Find(dirs, directory, DOTDOT).Some?
    ensures Find(Reparent(dirs, directory, parent).value, d, name) ==
            if SameSpot(d, name, directory, DOTDOT) then Some(Find(dirs, d, name).value.(inode := parent)) else Find(dirs, d, name)
  {
    if d == directory {
      var key, up := NormalizeName(name), FindIndex(dirs[d], NormalizeName(DOTDOT)).value;
      FindRedirected(dirs[d], up, parent, key);
      var found := FindIndex(dirs[d], key);
      if found.Some? && found.value == up {
        assert dirs[d][up].Named(key) && dirs[d][up].Named(NormalizeName(DOTDOT));
      }
    }
  }

  // ----- Counting entries -----

  /** Entries of the tables of some directories. */
  function Among(dirs: Dirs, keys: set<u64>): nat
    requires keys <= dirs.Keys
  {
    TotalOf(dirs, SortedKeys(keys))
  }

  lemma AmongLeast(dirs: Dirs, keys: set<u64>)
    requires keys <= dirs.Keys && keys != {}
    ensures Among(dirs, keys) == |dirs[Least(keys)]| + Among(dirs, keys - {Least(keys)})
  {
    var least := Least(keys);
    assert SortedKeys(keys) == [least] + SortedKeys(keys - {least});
    assert SortedKeys(keys)[1..] == SortedKeys(keys - {least});
  }

  /** The order the tables are counted in does not matter. */
  lemma {:induction false} AmongSplit(dirs: Dirs, keys: set<u64>, d: u64)
    requires keys <= dirs.Keys && d in keys
    ensures Among(dirs, keys) == |dirs[d]| + Among(dirs, keys - {d})
    decreases |keys|
  {
    hide Among;
    var least := Least(keys);
    AmongLeast(dirs, keys);
    if d != least {
      AmongSplit(dirs, keys - {least}, d);
      assert least in keys - {d} && Least(keys - {d}) in keys;
      AmongLeast(dirs, keys - {d});
      assert keys - {d} - {least} == keys - {least} - {d};
    }
  }

  lemma {:induction false} AmongSame(dirs: Dirs, after: Dirs, keys: set<u64>)
    requires keys <= dirs.Keys && keys <= after.Keys && forall d :: d in keys ==> |after[d]| == |dirs[d]|
    ensures Among(after, keys) == Among(dirs, keys)
    decreases |keys|
  {
    if keys != {} {
      var rest := keys - {Least(keys)};
      AmongLeast(dirs, keys);
      AmongLeast(after, keys);
      AmongSame(dirs, after, rest);
    }
  }

  lemma TotalPut(dirs: Dirs, d: u64, entries: Entries)
    ensures Total(dirs[d := entries]) == Total(dirs) + |entries| - (if d in dirs then |dirs[d]| else 0)
  {
    var after := dirs[d := entries];
    AmongSplit(after, after.Keys, d);
    if d in dirs {
      AmongSplit(dirs, dirs.Keys, d);
      assert after.Keys == dirs.Keys;
    } else {
      assert after.Keys - {d} == dirs.Keys;
    }
    AmongSame(dirs, after, after.Keys - {d});
  }

  lemma TotalErase(dirs: Dirs, d: u64)
    ensures Total(dirs - {d}) == Total(dirs) - (if d in dirs then |dirs[d]| else 0)
  {
    var after := dirs - {d};
    assert after.Keys == dirs.Keys - {d};
    if d in dirs {
      AmongSplit(dirs, dirs.Keys, d);
    } else {
      assert after == dirs;
    }
    AmongSame(dirs, after, after.Keys);
  }

  /** Whatever was accepted left the tables within the limit. The count that decides it includes the
      dot entries of a directory created just before. */
  lemma AddTotal(dirs: Dirs, directory: u64, entry: DirectoryEntry, limits: Limits)
    requires Add(dirs, directory, entry, limits).Ok?
    ensures Total(Add(dirs, directory, entry, limits).value) == Total(dirs) + 1 <= limits.maxDirectoryEntries
  {
    hide Total;
    var length := if entry.recordLength == 0 then AlignedDirectoryLength(|entry.name|) else entry.recordLength;
    TotalPut(dirs, directory, dirs[directory] + [entry.(recordLength := length)]);
  }

  lemma RemoveTotal(dirs: Dirs, directory: u64, name: text)
    requires Remove(dirs, directory, name).Ok?
    ensures Total(Remove(dirs, directory, name).value.0) == Total(dirs)
  {
    hide Total;
    TotalPut(dirs, directory, Remove(dirs, directory, name).value.0[directory]);
  }

  lemma ReparentTotal(dirs: Dirs, directory: u64, parent: u64)
    requires Reparent(dirs, directory, parent).Some?
    ensures Total(Reparent(dirs, directory, parent).value) == Total(dirs)
  {
    hide Total;
    TotalPut(dirs, directory, Reparent(dirs, directory, parent).value[directory]);
  }

  /** A rename makes a tombstone and an entry, and only within the limit. */
  lemma RenameTotal(dirs: Dirs, source: u64, sourceName: text, target: u64, targetName: text, limits: Limits)
    requires Rename(dirs, source, sourceName, target, targetName, limits).1.Ok?
    ensures var next := Rename(dirs, source, sourceName, target, targetName, limits).0;
            Total(next) == Total(dirs) + 1 <= limits.maxDirectoryEntries
  {
    hide Total, Add, Reparent, Remove;
    RemoveTotal(dirs, source, sourceName);
    var (without, removed) := Remove(dirs, source, sourceName).value;
    var moved := Moved(removed, targetName);
    AddTotal(without, target, moved, limits);
    var with: Dirs := Add(without, target, moved, limits).value;
    if moved.entryType == Directory && source != target {
      ReparentTotal(with, moved.inode, target);
    }
  }

  // ----- Verification of loaded tables -----

  ghost predicate VerifiedEntries(entries: Entries, inodes: map<u64, Inode>, limits: Limits) {
    && (forall i :: 0 <= i < |entries| ==> entries[i].Validate(limits).Ok?)
    && (forall i :: 0 <= i < |entries| && !entries[i].deleted ==>
          entries[i].inode in inodes && inodes[entries[i].inode].inodeType == entries[i].entryType)
    && UniqueNames(entries)
  }

  ghost predicate VerifiedDirectory(dirs: Dirs, directory: u64, inodes: map<u64, Inode>, limits: Limits)
    requires directory in dirs
  {
    && directory in inodes && inodes[directory].inodeType == Directory
    && Find(dirs, directory, DOT).Some? && Find(dirs, directory, DOT).value.inode == directory
    && Find(dirs, directory, DOTDOT).Some? && Find(dirs, directory, DOTDOT).value.inode in inodes
    && VerifiedEntries(dirs[directory], inodes, limits)
  }

  ghost predicate VerifiedTables(dirs: Dirs, inodes: map<u64, Inode>, root: u64, limits: Limits) {
    && (forall d :: d in dirs ==> VerifiedDirectory(dirs, d, inodes, limits))
    && Total(dirs) <= limits.maxDirectoryEntries
    && root in dirs
  }

  /** The entries of one table in order, with the lower-cased names before them, up to the first error. */
  function VerifyEntriesFrom(entries: Entries, names: set<text>, inodes: map<u64, Inode>, limits: Limits): Result<()>
    decreases |entries|
  {
    if entries == [] then Ok(())
    else
      var e := entries[0];
      var _ :- e.Validate(limits);
      if e.deleted then VerifyEntriesFrom(entries[1..], names, inodes, limits)
      else if e.inode !in inodes then Err(InvalidInode)
      else if e.Key() in names || inodes[e.inode].inodeType != e.entryType then Err(InvalidDirectory)
      else VerifyEntriesFrom(entries[1..], names + {e.Key()}, inodes, limits)
  }

  predicate DotsOk(dirs: Dirs, d: u64, inodes: map<u64, Inode>) {
    && Find(dirs, d, DOT).Some? && Find(dirs, d, DOT).value.inode == d
    && Find(dirs, d, DOTDOT).Some? && Find(dirs, d, DOTDOT).value.inode in inodes
  }

  /** One table, with the number of entries before it. */
  function VerifyTableOf(dirs: Dirs, d: u64, total: nat, inodes: map<u64, Inode>, limits: Limits): Result<()>
    requires d in dirs
  {
    if d !in inodes || inodes[d].inodeType != Directory then Err(InvalidDirectory)
    else if total + |dirs[d]| > limits.maxDirectoryEntries then Err(ResourceLimit)
    else if !DotsOk(dirs, d, inodes) then Err(InvalidDirectory)
    else VerifyEntriesFrom(dirs[d], {}, inodes, limits)
  }

  /** The tables under some keys in order, up to the first error. */
  function VerifyTablesFrom(dirs: Dirs, keys: seq<u64>, total: nat, inodes: map<u64, Inode>, limits: Limits): Result<()>
    requires forall k :: k in keys ==> k in dirs
    decreases |keys|
  {
    if keys == [] then Ok(())
    else
      var _ :- VerifyTableOf(dirs, keys[0], total, inodes, limits);
      VerifyTablesFrom(dirs, keys[1..], total + |dirs[keys[0]]|, inodes, limits)
  }

  lemma VerifyTablesStep(dirs: Dirs, keys: seq<u64>, index: nat, total: nat, inodes: map<u64, Inode>, limits: Limits)
    requires (forall k :: k in keys ==> k in dirs) && index < |keys|
    ensures VerifyTablesFrom(dirs, keys[index..], total, inodes, limits) ==
            var table := VerifyTableOf(dirs, keys[index], total, inodes, limits);
            if table.Err? then table
            else VerifyTablesFrom(dirs, keys[index + 1..], total + |dirs[keys[index]]|, inodes, limits)
  {
    hide VerifyTableOf;
    assert keys[index..][1..] == keys[index + 1..] && keys[index..][0] == keys[index];
  }

  lemma VerifyTablesNone(dirs: Dirs, keys: seq<u64>, total: nat, inodes: map<u64, Inode>, limits: Limits)
    requires (forall k :: k in keys ==> k in dirs) && keys == []
    ensures VerifyTablesFrom(dirs, keys, total, inodes, limits) == Ok(())
  {
  }

  function VerifyDirectories(dirs: Dirs, inodes: map<u64, Inode>, root: u64, limits: Limits): Result<()> {
    var _ :- VerifyTablesFrom(dirs, SortedKeys(dirs.Keys), 0, inodes, limits);
    if root !in dirs then Err(InvalidDirectory) else Ok(())
  }

  /** No error means what the predicate says, with names kept apart from those before. */
  lemma {:induction false} VerifyEntriesMeans(entries: Entries, names: set<text>, inodes: map<u64, Inode>, limits: Limits)
    ensures VerifyEntriesFrom(entries, names, inodes, limits).Ok? <==>
            VerifiedEntries(entries, inodes, limits)
            && forall i :: 0 <= i < |entries| && !entries[i].deleted ==> entries[i].Key() !in names
    decreases |entries|
  {
    hide DirectoryEntry.Validate, DirectoryEntry.Key;
    if entries != [] {
      var e, rest := entries[0], entries[1..];
      assert forall i :: 0 <= i < |rest| ==> rest[i] == entries[i + 1];
      assert forall i :: 0 < i < |entries| ==> entries[i] == rest[i - 1];
      var more := if e.deleted then names else names + {e.Key()};
      VerifyEntriesMeans(rest, more, inodes, limits);
    }
  }

  lemma {:induction false} VerifyTablesMeans(dirs: Dirs, keys: seq<u64>, total: nat, inodes: map<u64, Inode>, limits: Limits)
    requires (forall k :: k in keys ==> k in dirs) && total <= limits.maxDirectoryEntries
    ensures VerifyTablesFrom(dirs, keys, total, inodes, limits).Ok? <==>
            && (forall k :: k in keys ==> VerifiedDirectory(dirs, k, inodes, limits))
            && total + TotalOf(dirs, keys) <= limits.maxDirectoryEntries
    decreases |keys|
  {
    hide VerifiedEntries, VerifyEntriesFrom, Find;
    if keys != [] {
      var d := keys[0];
      assert forall k :: k in keys <==> k == d || k in keys[1..];
      assert TotalOf(dirs, keys) == |dirs[d]| + TotalOf(dirs, keys[1..]);
      VerifyEntriesMeans(dirs[d], {}, inodes, limits);
      assert VerifiedDirectory(dirs, d, inodes, limits) <==>
             d in inodes && inodes[d].inodeType == Directory && DotsOk(dirs, d, inodes) && VerifyEntriesFrom(dirs[d], {}, inodes, limits).Ok?;
      if total + |dirs[d]| <= limits.maxDirectoryEntries {
        VerifyTablesMeans(dirs, keys[1..], total + |dirs[d]|, inodes, limits);
      }
    }
  }

  lemma VerifyDirectoriesMeans(dirs: Dirs, inodes: map<u64, Inode>, root: u64, limits: Limits)
    ensures VerifyDirectories(dirs, inodes, root, limits).Ok? <==> VerifiedTables(dirs, inodes, root, limits)
  {
    hide VerifiedDirectory, VerifyTablesFrom, SortedKeys;
    VerifyTablesMeans(dirs, SortedKeys(dirs.Keys), 0, inodes, limits);
  }

  class DirectoryTable {
    const limits: Limits
    var directories: Dirs

    constructor (limits: Limits)
      ensures this.limits == limits && directories == map[]
    {
      this.limits := limits;
      directories := map[];
    }

    method InitializeRoot(root: u64)
      modifies this
      ensures directories == map[root := Dots(root, root)]
    {
      directories := map[root := Dots(root, root)];
    }

    method LoadTable(inode: u64, entries: Entries) returns (r: Result<()>)
      modifies this
      ensures r.Ok? <==> Load(old(directories), inode, entries, limits).Ok?
      ensures r.Ok? ==> Load(old(directories), inode, entries, limits) == Ok(directories)
      ensures r.Err? ==> Load(old(directories), inode, entries, limits) == Err(r.code) && unchanged(this)
    {
      if inode == 0 || inode in directories {
        return Err(InvalidDirectory);
      }
      if |entries| > limits.maxDirectoryEntries {
        return Err(ResourceLimit);
      }
      var index := 0;
      while index < |entries|
        invariant 0 <= index <= |entries|
        invariant ValidateAll(entries[index..], limits) == ValidateAll(entries, limits)
      {
        assert entries[index..][1..] == entries[index + 1..];
        var valid := entries[index].Validate(limits);
        if valid.Err? {
          return valid;
        }
        index := index + 1;
      }
      directories := directories[inode := entries];
      return Ok(());
    }

    method CreateTable(inode: u64, parent: u64) returns (r: Result<()>)
      modifies this
      ensures r.Ok? <==> Create(old(directories), inode, parent).Ok?
      ensures r.Ok? ==> Create(old(directories), inode, parent) == Ok(directories)
      ensures r.Err? ==> Create(old(directories), inode, parent) == Err(r.code) && unchanged(this)
    {
      if inode == 0 || parent == 0 {
        return Err(InvalidInode);
      }
      if inode in directories {
        return Err(AlreadyExists);
      }
      directories := directories[inode := Dots(inode, parent)];
      return Ok(());
    }

    method EraseTable(inode: u64) returns (r: Result<()>)
      modifies this
      ensures r.Ok? <==> EraseDirectory(old(directories), inode).Ok?
      ensures r.Ok? ==> EraseDirectory(old(directories), inode) == Ok(directories)
      ensures r.Err? ==> EraseDirectory(old(directories), inode) == Err(r.code) && unchanged(this)
    {
      if inode !in directories {
        return Err(NotFound);
      }
      var entries := directories[inode];
      var index := 0;
      while index < |entries|
        invariant 0 <= index <= |entries|
        invariant forall i :: 0 <= i < index ==> entries[i].deleted || entries[i].IsDot()
      {
        if !entries[index].deleted && !entries[index].IsDot() {
          return Err(DirectoryNotEmpty);
        }
        index := index + 1;
      }
      directories := directories - {inode};
      return Ok(());
    }

    /** The entry limit is tested table by table; it trips exactly when the total reaches it. */
    method EntryLimitReached() returns (reached: bool)
      requires directories != map[]
      ensures reached <==> Total(directories) >= limits.maxDirectoryEntries
    {
      hide SortedKeys, Increasing;
      var keys := SortedKeys(directories.Keys);
      var total := 0;
      var index := 0;
      assert keys[0..] == keys;
      SomeKey(directories);
      while index < |keys|
        invariant 0 <= index <= |keys|
        invariant total + TotalOf(directories, keys[index..]) == Total(directories)
        invariant index > 0 ==> total < limits.maxDirectoryEntries
      {
        assert keys[index..][1..] == keys[index + 1..];
        total := total + |directories[keys[index]]|;
        if total >= limits.maxDirectoryEntries {
          return true;
        }
        index := index + 1;
      }
      return false;
    }

    method AddEntry(directory: u64, entry: DirectoryEntry) returns (r: Result<()>)
      modifies this
      ensures r.Ok? <==> Add(old(directories), directory, entry, limits).Ok?
      ensures r.Ok? ==> Add(old(directories), directory, entry, limits) == Ok(directories)
      ensures r.Err? ==> Add(old(directories), directory, entry, limits) == Err(r.code) && unchanged(this)
    {
      if directory !in directories {
        return Err(NotDirectory);
      }
      if entry.IsDot() {
        return Err(InvalidName);
      }
      var valid := entry.Validate(limits);
      if valid.Err? {
        return valid;
      }
      if Find(directories, directory, entry.name).Some? {
        return Err(AlreadyExists);
      }
      var reached := EntryLimitReached();
      if reached {
        return Err(ResourceLimit);
      }
      var stored := entry;
      if entry.recordLength == 0 {
        stored := entry.(recordLength := AlignedDirectoryLength(|entry.name|));
      }
      directories := directories[directory := directories[directory] + [stored]];
      return Ok(());
    }

    method RemoveEntry(directory: u64, name: text) returns (r: Result<DirectoryEntry>)
      modifies this
      ensures r.Ok? <==> Remove(old(directories), directory, name).Ok?
      ensures r.Ok? ==> Remove(old(directories), directory, name) == Ok((directories, r.value))
      ensures r.Err? ==> Remove(old(directories), directory, name) == Err(r.code) && unchanged(this)
    {
      if name == DOT || name == DOTDOT {
        return Err(PermissionDenied);
      }
      if directory !in directories {
        return Err(NotDirectory);
      }
      var found := FindIndex(directories[directory], NormalizeName(name));
      if found.None? {
        return Err(NotFound);
      }
      var removed := directories[directory][found.value];
      directories := directories[directory := Bury(directories[directory], found.value)];
      return Ok(removed);
    }

    /** Scans the source table from the back and revives the first tombstone of that name. */
    method UndoRemoval(source: u64, sourceName: text)
      modifies this
      ensures directories == Undelete(old(directories), source, sourceName)
    {
      if source !in directories {
        return;
      }
      var entries := directories[source];
      var key := NormalizeName(sourceName);
      var index := |entries|;
      assert entries[..index] == entries;
      while index > 0
        invariant 0 <= index <= |entries|
        invariant LastTombstone(entries, key) == LastTombstone(entries[..index], key)
      {
        assert entries[..index][..index - 1] == entries[..index - 1];
        var candidate := entries[index - 1];
        if candidate.deleted && candidate.Key() == key {
          directories := directories[source := entries[index - 1 := candidate.(deleted := false)]];
          return;
        }
        index := index - 1;
      }
    }

    method RenameEntry(source: u64, sourceName: text, target: u64, targetName: text) returns (r: Result<()>)
      modifies this
      ensures (directories, r) == Rename(old(directories), source, sourceName, target, targetName, limits)
    {
      hide Add, Remove;
      if !RenameTargetOk(targetName, limits) {
        return Err(InvalidName);
      }
      if Find(directories, target, targetName).Some? {
        return Err(AlreadyExists);
      }
      var removed := RemoveEntry(source, sourceName);
      if removed.Err? {
        return Err(removed.code);
      }
      var moved := Moved(removed.value, targetName);
      var added := AddEntry(target, moved);
      if added.Err? {
        UndoRemoval(source, sourceName);
        return Err(added.code);
      }
      if moved.entryType == Directory && source != target {
        var parent := if moved.inode in directories then FindIndex(directories[moved.inode], NormalizeName(DOTDOT)) else None;
        if parent.None? {
          return Err(InvalidDirectory);
        }
        var entries := directories[moved.inode];
        directories := directories[moved.inode := entries[parent.value := entries[parent.value].(inode := target)]];
      }
      return Ok(());
    }

    /** `verify`: every table is a directory's, has its dot entries, and names inodes that exist. */
    method Verify(inodes: map<u64, Inode>, root: u64) returns (r: Result<()>)
      ensures r == VerifyDirectories(directories, inodes, root, limits)
    {
      hide Find, VerifyEntriesFrom, VerifyTablesFrom;
      var keys := SortedKeys(directories.Keys);
      var total: nat := 0;
      var index := 0;
      assert keys[0..] == keys;
      while index < |keys|
        invariant 0 <= index <= |keys|
        invariant VerifyTablesFrom(directories, keys[index..], total, inodes, limits) ==
                  VerifyTablesFrom(directories, keys, 0, inodes, limits)
      {
        VerifyTablesStep(directories, keys, index, total, inodes, limits);
        var table := VerifyOne(keys[index], total, inodes);
        if table.Err? {
          return table;
        }
        total := total + |directories[keys[index]]|;
        index := index + 1;
      }
      VerifyTablesNone(directories, keys[index..], total, inodes, limits);
      if root !in directories {
        return Err(InvalidDirectory);
      }
      return Ok(());
    }

    method VerifyOne(d: u64, total: nat, inodes: map<u64, Inode>) returns (r: Result<()>)
      requires d in directories
      ensures r == VerifyTableOf(directories, d, total, inodes, limits)
    {
      hide Find, VerifyEntriesFrom;
      if d !in inodes || inodes[d].inodeType != Directory {
        return Err(InvalidDirectory);
      }
      if total + |directories[d]| > limits.maxDirectoryEntries {
        return Err(ResourceLimit);
      }
      var self := Find(directories, d, DOT);
      var parent := Find(directories, d, DOTDOT);
      if self.None? || self.value.inode != d || parent.None? || parent.value.inode !in inodes {
        return Err(InvalidDirectory);
      }
      r := VerifyEntries(directories[d], inodes);
    }

    method VerifyEntries(entries: Entries, inodes: map<u64, Inode>) returns (r: Result<()>)
      ensures r == VerifyEntriesFrom(entries, {}, inodes, limits)
    {
      hide DirectoryEntry.Validate, NormalizeName;
      var names: set<text> := {};
      var index := 0;
      while index < |entries|
        invariant 0 <= index <= |entries|
        invariant VerifyEntriesFrom(entries[index..], names, inodes, limits) == VerifyEntriesFrom(entries, {}, inodes, limits)
      {
        var entry := entries[index];
        assert entries[index..][1..] == entries[index + 1..];
        var valid := entry.Validate(limits);
        if valid.Err? {
          return valid;
        }
        if !entry.deleted {
          if entry.inode !in inodes {
            return Err(InvalidInode);
          }
          if entry.Key() in names {
            return Err(InvalidDirectory);
          }
          names := names + {entry.Key()};
          if inodes[entry.inode].inodeType != entry.entryType {
            return Err(InvalidDirectory);
          }
        }
        index := index + 1;
      }
      return Ok(());
    }

    method Restore(saved: Dirs)
      modifies this
      ensures directories == saved
    {
      directories := saved;
    }
  }

  lemma SomeKey(dirs: Dirs)
    requires dirs != map[]
    ensures |SortedKeys(dirs.Keys)| > 0
  {
    var k :| k in dirs;
    assert k in SortedKeys(dirs.Keys);
  }
}
