/** Mounting what was serialized rebuilds the state, and a damaged body is not mounted. */
module ImageTheorems {
  import opened Base
  import opened Bytes
  import opened Crc
  import opened Devices
  import opened Allocators
  import opened Extents
  import opened Inodes
  import opened InodeTables
  import opened Directories
  import opened Trees
  import opened FileWrites
  import opened InodeCodecs
  import opened DirectoryCodecs
  import opened JournalCodecs
  import Journals
  import opened FsModel
  import opened FsInvariant
  import opened FsCreate
  import opened FsRemove
  import opened FsNodes
  import opened FsRuns
  import opened FsTheorems
  import opened Images
  import opened Validity

  // ----- Damage -----

  /** An image whose checksum is right mounts under no options with checksums on once its body has been
      changed within four consecutive bytes; the filesystem stays as it was. */
  lemma DamageIsRejected(fs: Fs, data: seq<byte>, damaged: seq<byte>, at: nat, options: MountOptions, limits: ImageLimits)
    requires |data| == |damaged| >= HEADER_SIZE && data[..HEADER_SIZE] == damaged[..HEADER_SIZE]
    requires ImageWords(data)[12] == Crc32(data[HEADER_SIZE..])
    requires Burst(data[HEADER_SIZE..], damaged[HEADER_SIZE..], at) && options.validateChecksums
    ensures Mount(fs, damaged, options, limits).1.Err? && Mount(fs, damaged, options, limits).0 == fs
  {
    hide Crc32, ImageWords, Burst, Mount, CheckHeader;
    BurstDetected(data[HEADER_SIZE..], damaged[HEADER_SIZE..], at);
    SameHeader(data, damaged);
    WrongChecksum(damaged, options, limits);
    RefusedMount(fs, damaged, options, limits);
  }

  lemma WrongChecksum(data: seq<byte>, options: MountOptions, limits: ImageLimits)
    requires |data| >= HEADER_SIZE && ImageWords(data)[12] != Crc32(data[HEADER_SIZE..]) && options.validateChecksums
    ensures CheckHeader(data, options, limits).Err?
  {
    hide ImageWords, Crc32, CeilDivide;
  }

  lemma RefusedMount(fs: Fs, data: seq<byte>, options: MountOptions, limits: ImageLimits)
    requires CheckHeader(data, options, limits).Err?
    ensures Mount(fs, data, options, limits).1.Err? && Mount(fs, data, options, limits).0 == fs
  {
    hide CheckHeader, CutSections, LoadSections;
  }

  lemma SameHeader(data: seq<byte>, damaged: seq<byte>)
    requires |data| == |damaged| >= HEADER_SIZE && data[..HEADER_SIZE] == damaged[..HEADER_SIZE]
    ensures ImageWords(data) == ImageWords(damaged)
  {
    HeaderWidthsSum();
    SamePlaces(data, damaged, 8, HEADER_WIDTHS);
  }

  lemma {:induction false} SamePlaces(data: seq<byte>, damaged: seq<byte>, offset: nat, widths: seq<nat>)
    requires |data| == |damaged| >= HEADER_SIZE && data[..HEADER_SIZE] == damaged[..HEADER_SIZE]
    requires offset + Sum(widths) <= HEADER_SIZE
    ensures WordsAt(data, offset, widths) == WordsAt(damaged, offset, widths)
    decreases |widths|
  {
    hide Value, Beyond;
    if widths != [] {
      SameHead(data, damaged, HEADER_SIZE, offset, offset + widths[0]);
      SamePlaces(data, damaged, offset + widths[0], widths[1..]);
    }
  }

  lemma SameHead(a: seq<byte>, b: seq<byte>, n: nat, i: nat, j: nat)
    requires i <= j <= n <= |a| && n <= |b| && a[..n] == b[..n]
    ensures a[i..j] == b[i..j]
  {
    assert forall k :: 0 <= k < n ==> a[k] == a[..n][k] && b[k] == b[..n][k];
  }

  // ----- Header and sections -----

  lemma HeaderFits(fs: Fs, s: Sections, checksum: u32)
    ensures FitWidths(HeaderWords(fs, s, checksum), HEADER_WIDTHS)
  {
    WordSizes();
  }

  lemma HeaderParts(fs: Fs, s: Sections, checksum: u32, body: seq<byte>)
    ensures var data := Header(fs, s, checksum) + body;
            && |data| == HEADER_SIZE + |body| && data[..8] == IMAGE_MAGIC && data[HEADER_SIZE..] == body
            && ImageWords(data) == HeaderWords(fs, s, checksum)
  {
    hide HeaderWords, PutWords, Sum, WordsAt, FitWidths, ImageWords;
    var words := HeaderWords(fs, s, checksum);
    var fields := PutWords(words, HEADER_WIDTHS);
    HeaderFits(fs, s, checksum);
    HeaderWidthsSum();
    PutWordsLength(words, HEADER_WIDTHS);
    var data := Header(fs, s, checksum) + body;
    assert data == IMAGE_MAGIC + (fields + (Zeros(8) + body));
    assert data[HEADER_SIZE..] == body;
    WordsAtPut(IMAGE_MAGIC, words, HEADER_WIDTHS, Zeros(8) + body);
    ImageWordsAre(data);
  }

  lemma ImageWordsAre(data: seq<byte>)
    requires |data| >= HEADER_SIZE
    ensures 8 + Sum(HEADER_WIDTHS) <= |data| && ImageWords(data) == WordsAt(data, 8, HEADER_WIDTHS)
  {
    HeaderWidthsSum();
  }

  lemma TakePutSection(section: seq<byte>, rest: seq<byte>)
    ensures TakeSection(section + rest, |section|) == Ok((section, rest))
  {
  }

  lemma CutJoined(s: Sections, w: seq<nat>)
    requires |w| == |HEADER_WIDTHS|
    requires w[6] == |s.bitmap| && w[7] == |s.inodes| && w[8] == |s.directories| && w[9] == |s.journal| && w[10] == |s.device|
    ensures CutSections(s.Joined(), w) == Ok(s)
  {
    TakePutSection(s.bitmap, s.inodes + (s.directories + (s.journal + s.device)));
    TakePutSection(s.inodes, s.directories + (s.journal + s.device));
    TakePutSection(s.directories, s.journal + s.device);
    TakePutSection(s.journal, s.device);
    assert s.device + [] == s.device;
    TakePutSection(s.device, []);
    hide TakeSection;
  }

  // ----- Inode section -----

  lemma TakePutRecord(record: seq<byte>, rest: seq<byte>)
    requires |record| < TWO32
    ensures TakeRecordBytes(PutText(record) + rest) == Ok((record, rest))
  {
    WordSizes();
    assert PutText(record) == LittleEndian(|record|, 4) + record;
    hide LittleEndian, TakeWord, Beyond, Wrap32, PutText;
    TakePutWord(|record|, 4, record + rest);
    assert PutText(record) + rest == LittleEndian(|record|, 4) + (record + rest);
  }

  /** Encodes within the limits and decodes to itself. */
  ghost predicate Storable(inode: Inode, id: u64, superblock: Superblock, limits: ImageLimits)
    requires superblock.blockSize > 0
  {
    && inode.identifier == id && 1 <= id <= limits.maxInodes
    && inode.Validate(superblock, limits).Ok?
    && EncodeInode(inode, limits).Ok? && |EncodeInode(inode, limits).value| <= limits.maxFileBytes
  }

  /** Inserting one of the inodes still missing. */
  lemma InsertNext(table: Table, inode: Inode, all: map<u64, Inode>, limits: ImageLimits)
    requires inode.identifier in all && all[inode.identifier] == inode && inode.identifier !in table.inodes
    requires 1 <= inode.identifier <= limits.maxInodes && |all| <= limits.maxInodes
    requires forall k :: k in table.inodes ==> k in all && table.inodes[k] == all[k]
    ensures table.Insert(limits, inode).Ok?
    ensures table.Insert(limits, inode).value.inodes == table.inodes[inode.identifier := inode]
  {
    assert table.inodes.Keys <= all.Keys - {inode.identifier};
    SubsetSize(table.inodes.Keys, all.Keys - {inode.identifier});
  }

  /** Part of the inodes, and those under the given keys. */
  ghost predicate Partly(inodes: map<u64, Inode>, all: map<u64, Inode>, keys: seq<u64>) {
    && (forall k :: k in inodes ==> k in all && inodes[k] == all[k])
    && (forall k :: k in all ==> k in inodes || k in keys)
    && (forall i :: 0 <= i < |keys| ==> keys[i] in all && keys[i] !in inodes)
    && (forall i, j :: 0 <= i < j < |keys| ==> keys[i] != keys[j])
  }

  lemma PartlyNext(inodes: map<u64, Inode>, all: map<u64, Inode>, keys: seq<u64>)
    requires Partly(inodes, all, keys) && keys != []
    ensures keys[0] in all && keys[0] !in inodes
    ensures Partly(inodes[keys[0] := all[keys[0]]], all, keys[1..])
  {
  }

  lemma PartlyMeans(inodes: map<u64, Inode>, all: map<u64, Inode>, keys: seq<u64>)
    requires Partly(inodes, all, keys)
    ensures forall k :: k in keys ==> k in all
    ensures forall k :: k in inodes ==> k in all && inodes[k] == all[k]
    ensures keys == [] ==> inodes == all
  {
    if keys == [] {
      assert inodes.Keys == all.Keys;
    }
  }

  lemma StorableMeans(inode: Inode, id: u64, superblock: Superblock, limits: ImageLimits)
    requires superblock.blockSize > 0 && Storable(inode, id, superblock, limits)
    ensures inode.identifier == id && 1 <= id <= limits.maxInodes && EncodeInode(inode, limits).Ok?
    ensures |EncodeInode(inode, limits).value| < TWO32
    ensures DecodeInode(EncodeInode(inode, limits).value, superblock, limits) == Ok(inode)
  {
    hide EncodeInode, DecodeInode, Inode.Validate;
    InodeRoundTrip(inode, superblock, limits);
  }

  lemma {:induction false} TakePutInodes(all: map<u64, Inode>, keys: seq<u64>, table: Table, rest: seq<byte>, superblock: Superblock, limits: ImageLimits)
    requires superblock.blockSize > 0 && |all| <= limits.maxInodes && Partly(table.inodes, all, keys)
    requires forall k :: k in all ==> Storable(all[k], k, superblock, limits)
    ensures forall k :: k in keys ==> k in all
    ensures PutInodes(all, keys, limits).Ok?
    ensures var r := TakeInodes(PutInodes(all, keys, limits).value + rest, |keys|, table, superblock, limits);
            r.Ok? && r.value.1 == rest && r.value.0.inodes == all
    decreases |keys|
  {
    hide EncodeInode, DecodeInode, Inode.Validate, PutText, TakeRecordBytes, Table.Insert, Partly, Storable;
    PartlyMeans(table.inodes, all, keys);
    if keys == [] {
      assert [] + rest == rest && table.inodes == all;
    } else {
      var id := keys[0];
      PartlyNext(table.inodes, all, keys);
      StorableMeans(all[id], id, superblock, limits);
      var record := EncodeInode(all[id], limits).value;
      InsertNext(table, all[id], all, limits);
      var grown := table.Insert(limits, all[id]).value;
      TakePutInodes(all, keys[1..], grown, rest, superblock, limits);
      var others := PutInodes(all, keys[1..], limits).value;
      TakePutRecord(record, others + rest);
      assert PutText(record) + others + rest == PutText(record) + (others + rest);
    }
  }

  lemma KeysPartly(all: map<u64, Inode>)
    ensures Partly(map[], all, SortedKeys(all.Keys))
  {
  }

  lemma LoadsInodes(inodes: map<u64, Inode>, next: u64, superblock: Superblock, limits: ImageLimits)
    requires superblock.blockSize > 0 && |inodes| <= limits.maxInodes && next >= 1
    requires forall k :: k in inodes ==> Storable(inodes[k], k, superblock, limits)
    ensures InodeSection(inodes, limits).Ok?
    ensures LoadInodes(InodeSection(inodes, limits).value, |inodes|, next, superblock, limits) == Ok(Table(inodes, next))
  {
    hide Storable, Partly, PutInodes, TakeInodes, SortedKeys;
    var keys := SortedKeys(inodes.Keys);
    SortedKeysLength(inodes.Keys);
    KeysPartly(inodes);
    TakePutInodes(inodes, keys, Table(map[], 1), [], superblock, limits);
    var records := PutInodes(inodes, keys, limits).value;
    assert records + [] == records;
    CountWord(|inodes|, records);
  }

  lemma CountWord(count: nat, rest: seq<byte>)
    requires count < TWO32
    ensures TakeWord(LittleEndian(Wrap32(count), 4) + rest, 4) == Ok((count, rest))
  {
    WordSizes();
    TakePutWord(count, 4, rest);
  }

  // ----- Directory section -----

  ghost predicate Fileable(entries: Entries, limits: ImageLimits) {
    && EncodeDirectory(entries, limits).Ok? && |EncodeDirectory(entries, limits).value| < TWO32
    && forall i :: 0 <= i < |entries| ==> entries[i].recordLength != 0
  }

  lemma FileableDecodes(entries: Entries, limits: ImageLimits)
    requires Fileable(entries, limits)
    ensures DecodeDirectory(EncodeDirectory(entries, limits).value, limits) == Ok(entries)
    ensures |entries| <= limits.maxDirectoryEntries
    ensures forall i :: 0 <= i < |entries| ==> entries[i].Validate(limits).Ok?
  {
    DirectoryRoundTrip(entries, limits);
    AllEntriesValid(entries, limits);
    hide DecodeDirectory, PutEntries, DirectoryEntry.Validate;
    assert AllMeasured(entries) == entries;
  }

  lemma {:induction false} AllEntriesValid(entries: Entries, limits: ImageLimits)
    requires PutEntries(entries, limits).Ok?
    ensures forall i :: 0 <= i < |entries| ==> entries[i].Validate(limits).Ok?
  {
    hide DirectoryEntry.Validate, PutEntry;
    if entries != [] {
      AllEntriesValid(entries[1..], limits);
      assert entries == [entries[0]] + entries[1..];
    }
  }

  ghost predicate DirsPartly(dirs: Dirs, all: Dirs, keys: seq<u64>) {
    && (forall k :: k in dirs ==> k in all && dirs[k] == all[k])
    && (forall k :: k in all ==> k in dirs || k in keys)
    && (forall i :: 0 <= i < |keys| ==> keys[i] in all && keys[i] !in dirs)
    && (forall i, j :: 0 <= i < j < |keys| ==> keys[i] != keys[j])
  }

  lemma DirsPartlyNext(dirs: Dirs, all: Dirs, keys: seq<u64>)
    requires DirsPartly(dirs, all, keys) && keys != []
    ensures keys[0] in all && keys[0] !in dirs
    ensures DirsPartly(dirs[keys[0] := all[keys[0]]], all, keys[1..])
  {
  }

  lemma LoadNext(dirs: Dirs, id: u64, entries: Entries, limits: ImageLimits)
    requires id != 0 && id !in dirs && |entries| <= limits.maxDirectoryEntries
    requires forall i :: 0 <= i < |entries| ==> entries[i].Validate(limits).Ok?
    ensures Load(dirs, id, entries, limits) == Ok(dirs[id := entries])
  {
  }

  lemma {:induction false} TakePutDirectories(all: Dirs, keys: seq<u64>, dirs: Dirs, rest: seq<byte>, limits: ImageLimits)
    requires DirsPartly(dirs, all, keys) && 0 !in all
    requires forall k :: k in all ==> Fileable(all[k], limits)
    ensures forall k :: k in keys ==> k in all
    ensures PutDirectories(all, keys, limits).Ok?
    ensures TakeDirectories(PutDirectories(all, keys, limits).value + rest, |keys|, dirs, limits) == Ok((all, rest))
    decreases |keys|
  {
    hide EncodeDirectory, DecodeDirectory, PutText, TakeRecordBytes, Load, TakeWord, LittleEndian;
    if keys == [] {
      assert [] + rest == rest && dirs == all;
    } else {
      var id := keys[0];
      DirsPartlyNext(dirs, all, keys);
      assert Fileable(all[id], limits);
      var record := EncodeDirectory(all[id], limits).value;
      FileableDecodes(all[id], limits);
      LoadNext(dirs, id, all[id], limits);
      TakePutDirectories(all, keys[1..], dirs[id := all[id]], rest, limits);
      var others := PutDirectories(all, keys[1..], limits).value;
      TakePutRecord(record, others + rest);
      WordSizes();
      TakePutWord(id, 8, PutText(record) + (others + rest));
      assert LittleEndian(id, 8) + (PutText(record) + others) + rest == LittleEndian(id, 8) + (PutText(record) + (others + rest));
    }
  }

  lemma DirKeysPartly(all: Dirs)
    ensures DirsPartly(map[], all, SortedKeys(all.Keys))
  {
  }

  lemma LoadsDirectories(dirs: Dirs, count: nat, limits: ImageLimits)
    requires 0 !in dirs && |dirs| <= count < TWO32
    requires forall k :: k in dirs ==> Fileable(dirs[k], limits)
    ensures DirectorySection(dirs, limits).Ok?
    ensures LoadDirectories(DirectorySection(dirs, limits).value, count, limits) == Ok(dirs)
  {
    hide Fileable, DirsPartly, PutDirectories, TakeDirectories, SortedKeys;
    var keys := SortedKeys(dirs.Keys);
    SortedKeysLength(dirs.Keys);
    DirKeysPartly(dirs);
    TakePutDirectories(dirs, keys, map[], [], limits);
    var records := PutDirectories(dirs, keys, limits).value;
    assert records + [] == records;
    CountWord(|dirs|, records);
  }

  // ----- Journal, bitmap and device -----

  lemma {:induction false} LoadStamped(s: Journals.LoadState, records: seq<Journals.JournalRecord>)
    ensures Journals.LoadFrom(s, AllStamped(records)) == Journals.LoadFrom(s, records)
    decreases |records|
  {
    StampedSplit(records);
    hide AllStamped, Crc32, RecordBody;
    if records != [] {
      assert AllStamped(records)[1..] == AllStamped(records[1..]);
      var next := Journals.LoadStep(s, records[0]);
      if next.Ok? {
        LoadStamped(next.value, records[1..]);
      }
    }
  }

  /** The journal that a reload gives: the stored checksums are filled in, and the counters are those
      that the records show. */
  function Restored(log: Journals.Log): Journals.Log {
    Journals.Reloaded(log).(records := AllStamped(log.records))
  }

  lemma LoadsJournal(log: Journals.Log, limits: ImageLimits)
    requires Journals.LogOk(log, limits) && LegalTypes(log)
    ensures EncodeJournal(log.records, limits).Ok?
    ensures |EncodeJournal(log.records, limits).value| <= limits.maxImageBytes ==>
              DecodeJournal(EncodeJournal(log.records, limits).value, limits) == Ok(AllStamped(log.records))
    ensures Journals.Load(AllStamped(log.records), limits) == Ok(Restored(log))
  {
    hide EncodeJournal, DecodeJournal, Journals.LogOk, LegalTypes, AllRecordable, Journals.LoadFrom, Stamped, Crc32, Journals.Begins, Journals.Ascending;
    LegalMeans(log);
    LogLoads(log, limits);
    Journals.LogOrdered(log, limits);
    AscendingRecordable(log.records, 0, limits);
    JournalRoundTrip(log.records, limits);
    LoadStamped(Journals.LoadState(0, 0, 0), log.records);
  }

  lemma LegalMeans(log: Journals.Log)
    requires LegalTypes(log)
    ensures forall i :: 0 <= i < |log.records| ==> !log.records[i].recordType.OtherRecord?
  {
  }

  lemma LogLoads(log: Journals.Log, limits: ImageLimits)
    requires Journals.LogOk(log, limits)
    ensures |log.records| <= limits.maxJournalRecords
    ensures forall i :: 0 <= i < |log.records| ==> |log.records[i].payload| <= limits.maxFileBytes
    ensures Journals.LoadFrom(Journals.LoadState(0, 0, 0), log.records).Ok?
    ensures var s := Journals.LoadFrom(Journals.LoadState(0, 0, 0), log.records).value;
            Journals.Reloaded(log) == Journals.Log(log.records, Wrap64(s.previous + 1), Wrap64(s.maximum + 1), s.active)
  {
    hide Journals.Bracketed, Journals.LoadFrom;
    Journals.LogReloads(log, limits);
  }

  lemma {:induction false} StampedSame(records: seq<Journals.JournalRecord>, open: u64, end: u64)
    ensures Journals.Begins(AllStamped(records)) == Journals.Begins(records)
    ensures Journals.Bracketed(AllStamped(records), open, end) == Journals.Bracketed(records, open, end)
    decreases |records|
  {
    StampedSplit(records);
    hide AllStamped, Crc32, RecordBody;
    if records != [] {
      var r := records[0];
      assert AllStamped(records)[1..] == AllStamped(records[1..]);
      match r.recordType
      case BeginRecord => StampedSame(records[1..], r.transaction, end);
      case CommitRecord => StampedSame(records[1..], 0, end);
      case RollbackRecord => StampedSame(records[1..], 0, end);
      case _ => StampedSame(records[1..], open, end);
    }
  }

  /** Filling in checksums leaves the journal in order. */
  lemma StampedLogOk(log: Journals.Log, limits: ImageLimits)
    requires Journals.LogOk(log, limits) && LegalTypes(log)
    ensures Journals.LogOk(log.(records := AllStamped(log.records)), limits)
    ensures LegalTypes(log.(records := AllStamped(log.records)))
  {
    hide Journals.Bracketed, Journals.LoadFrom, Journals.Begins, Crc32, RecordBody;
    StampedSame(log.records, 0, log.active);
    LoadStamped(Journals.LoadState(0, 0, 0), log.records);
  }

  lemma RestoredFresh(log: Journals.Log, limits: ImageLimits)
    requires Journals.LogOk(log, limits)
    ensures Journals.FirstSequence(log) == 1 && Journals.FirstTransaction(log) == 1 ==>
              Restored(log) == log.(records := AllStamped(log.records))
  {
    hide Journals.LogOk, AllStamped, Journals.Begins, Journals.FirstSequence, Journals.FirstTransaction;
    Journals.ReloadedLogOk(log, limits);
  }

  lemma RestoredOk(log: Journals.Log, limits: ImageLimits)
    requires Journals.LogOk(log, limits) && LegalTypes(log)
    ensures Journals.LogOk(Restored(log), limits) && LegalTypes(Restored(log)) && Restored(log).active == log.active
  {
    hide Journals.LogOk, AllStamped, Journals.Begins;
    Journals.ReloadedLogOk(log, limits);
    StampedLogOk(Journals.Reloaded(log), limits);
  }

  lemma LoadsAllocation(core: Core, limits: ImageLimits)
    requires core.allocation.Valid() && core.allocation.count == core.superblock.blockCount
    requires 0 < core.superblock.blockCount <= limits.maxBlocks
    ensures LoadAllocation(core.superblock.blockCount, core.allocation.Bitmap(), limits)
         == Ok(Allocation(core.allocation.count, core.allocation.used, 0))
  {
    LoadBitmap(core.allocation);
    hide TailClear, UsedBlocks;
  }

  lemma OpensDevice(core: Core, limits: ImageLimits)
    requires StoreOk(core.Files(), core.superblock) && GeometryOk(core, limits)
    ensures OpenDevice(core.device.bytes, core.superblock.blockSize, limits) == Ok(core.device)
    ensures core.superblock.blockSize * core.superblock.blockCount == |core.device.bytes|
  {
    var count, size := core.superblock.blockCount, core.superblock.blockSize;
    DivModUnique(count, 0, size);
    MulMonotone(size, 1, count);
    assert |core.device.bytes| == count * size;
    assert Quotient(|core.device.bytes|, size) == count;
  }

  // ----- The whole image -----

  /** The records are not longer than what the reader accepts or their length field holds. */
  ghost predicate RecordsFit(core: Core, limits: ImageLimits) {
    && (forall id :: id in core.table.inodes && EncodeInode(core.table.inodes[id], limits).Ok? ==>
          |EncodeInode(core.table.inodes[id], limits).value| <= limits.maxFileBytes)
    && (forall d :: d in core.dirs && EncodeDirectory(core.dirs[d], limits).Ok? ==>
          |EncodeDirectory(core.dirs[d], limits).value| < TWO32)
  }

  /** What a caller can check beforehand for an image to be mountable again. */
  ghost predicate Mountable(core: Core, limits: ImageLimits) {
    && core.superblock.blockSize > 0 && RecordsFit(core, limits)
    && forall id :: id in core.table.inodes ==> InodeFits(core.table.inodes[id], limits)
  }

  lemma {:induction false} EncodedInodes(inodes: map<u64, Inode>, keys: seq<u64>, limits: ImageLimits)
    requires (forall k :: k in keys ==> k in inodes) && PutInodes(inodes, keys, limits).Ok?
    ensures forall k :: k in keys ==> EncodeInode(inodes[k], limits).Ok?
  {
    hide EncodeInode;
    if keys != [] {
      EncodedInodes(inodes, keys[1..], limits);
      assert keys == [keys[0]] + keys[1..];
    }
  }

  lemma {:induction false} EncodedDirectories(dirs: Dirs, keys: seq<u64>, limits: ImageLimits)
    requires (forall k :: k in keys ==> k in dirs) && PutDirectories(dirs, keys, limits).Ok?
    ensures forall k :: k in keys ==> EncodeDirectory(dirs[k], limits).Ok?
  {
    hide EncodeDirectory;
    if keys != [] {
      EncodedDirectories(dirs, keys[1..], limits);
      assert keys == [keys[0]] + keys[1..];
    }
  }

  lemma InodesStorable(core: Core, limits: ImageLimits)
    requires CoreInv(core, limits) && Mountable(core, limits) && InodeSection(core.table.inodes, limits).Ok?
    ensures core.superblock.blockSize > 0
    ensures forall k :: k in core.table.inodes ==> Storable(core.table.inodes[k], k, core.superblock, limits)
  {
    hide CoreInv, EncodeInode, PutInodes, PutText, Storable, Mountable, SortedKeys, InodeSection;
    InodeSectionMeans(core.table.inodes, limits);
    BlockSizePositive(core, limits);
    forall k | k in core.table.inodes ensures Storable(core.table.inodes[k], k, core.superblock, limits) {
      StorableOne(core, k, limits);
    }
  }

  lemma InodeSectionMeans(inodes: map<u64, Inode>, limits: ImageLimits)
    requires InodeSection(inodes, limits).Ok?
    ensures forall k :: k in inodes ==> EncodeInode(inodes[k], limits).Ok?
  {
    hide EncodeInode, PutInodes;
    EncodedInodes(inodes, SortedKeys(inodes.Keys), limits);
    assert forall k :: k in inodes ==> k in SortedKeys(inodes.Keys);
  }

  lemma StorableOne(core: Core, k: u64, limits: ImageLimits)
    requires CoreInv(core, limits) && Mountable(core, limits) && k in core.table.inodes
    requires EncodeInode(core.table.inodes[k], limits).Ok?
    ensures core.superblock.blockSize > 0 && Storable(core.table.inodes[k], k, core.superblock, limits)
  {
    var inode := core.table.inodes[k];
    assert |EncodeInode(inode, limits).value| <= limits.maxFileBytes;
    assert InodeFits(inode, limits);
    hide CoreInv, EncodeInode, InodeFits, Mountable, Inode.Validate, RecordsFit, TreeOk, LinksOk, OwnershipOk, StillOk, Table.Valid;
    InodeValidates(core, k, limits);
    InvPieces(core, limits);
    IdentifierInRange(core.table, k, limits);
  }

  lemma DirectorySectionMeans(dirs: Dirs, limits: ImageLimits)
    requires DirectorySection(dirs, limits).Ok?
    ensures forall d :: d in dirs ==> EncodeDirectory(dirs[d], limits).Ok?
  {
    hide EncodeDirectory, PutDirectories;
    EncodedDirectories(dirs, SortedKeys(dirs.Keys), limits);
    assert forall d :: d in dirs ==> d in SortedKeys(dirs.Keys);
  }

  lemma DirectoriesFileable(core: Core, limits: ImageLimits)
    requires CoreInv(core, limits) && RecordsFit(core, limits) && DirectorySection(core.dirs, limits).Ok?
    ensures forall d :: d in core.dirs ==> Fileable(core.dirs[d], limits)
  {
    hide CoreInv, EncodeDirectory, RecordsFit, Fileable, DirectorySection;
    DirectorySectionMeans(core.dirs, limits);
    forall d | d in core.dirs ensures Fileable(core.dirs[d], limits) {
      FileableOne(core, d, limits);
    }
  }

  lemma FileableOne(core: Core, d: u64, limits: ImageLimits)
    requires CoreInv(core, limits) && RecordsFit(core, limits) && d in core.dirs && EncodeDirectory(core.dirs[d], limits).Ok?
    ensures Fileable(core.dirs[d], limits)
  {
    hide CoreInv, EncodeDirectory, EncodeInode, TreeOk, LinksOk, OwnershipOk, StillOk, Table.Valid;
    InvPieces(core, limits);
    LengthsStored(core.dirs[d], d, core, limits);
  }

  lemma LengthsStored(entries: Entries, d: u64, core: Core, limits: ImageLimits)
    requires TreeOk(core.Names(), limits) && d in core.dirs && entries == core.dirs[d]
    ensures forall i :: 0 <= i < |entries| ==> entries[i].recordLength != 0
  {
    assert TableOk(d, core.Names().dirs[d], limits);
  }

  /** What mounting rebuilds from the serialized state. */
  ghost predicate Rebuilt(core: Core, loaded: Loaded, journal: Journals.Log, dirty: bool) {
    && loaded.core.device == core.device && loaded.core.table == core.table && loaded.core.dirs == core.dirs
    && loaded.core.allocation.count == core.allocation.count && loaded.core.allocation.used == core.allocation.used
    && loaded.core.allocation.hint == 0
    && loaded.core.superblock.version == core.superblock.version
    && loaded.core.superblock.blockSize == core.superblock.blockSize
    && loaded.core.superblock.blockCount == core.superblock.blockCount
    && loaded.core.superblock.rootInode == core.superblock.rootInode
    && loaded.core.superblock.generation == core.superblock.generation
    && loaded.journal == Restored(journal) && loaded.dirty == dirty
  }

  /** The header fields a serialized state carries. */
  lemma HeaderMeans(fs: Fs, s: Sections, checksum: u32, limits: ImageLimits)
    requires HEADER_SIZE + |s.Joined()| <= limits.maxImageBytes && |fs.core.table.inodes| < TWO32
    ensures var w := HeaderWords(fs, s, checksum);
            && w[0] == 1 && w[1] == fs.core.superblock.blockSize && w[2] == fs.core.superblock.blockCount
            && w[3] == |fs.core.table.inodes| && w[4] == fs.core.superblock.rootInode && w[5] == fs.core.superblock.generation
            && w[6] == |s.bitmap| && w[7] == |s.inodes| && w[8] == |s.directories| && w[9] == |s.journal| && w[10] == |s.device|
            && w[11] == fs.core.table.next && w[12] == checksum && w[13] == (if fs.dirty then 1 else 0)
  {
    hide Wrap64;
    WrapSmall(|fs.core.table.inodes|);
    WrapSmall(|s.bitmap|);
    WrapSmall(|s.inodes|);
    WrapSmall(|s.directories|);
    WrapSmall(|s.journal|);
    WrapSmall(|s.device|);
  }

  lemma WrapSmall(n: nat)
    requires n < TWO64
    ensures Wrap64(n) == n
  {
  }

  lemma DirsWithinInodes(core: Core, limits: ImageLimits)
    requires CoreInv(core, limits)
    ensures |core.dirs| <= |core.table.inodes| <= limits.maxInodes && 0 !in core.dirs
  {
    hide CoreInv, TreeOk, LinksOk, OwnershipOk, StillOk, Table.Valid;
    InvPieces(core, limits);
    RootExists(core.Names(), limits);
    TableCount(core.table, limits);
    assert core.dirs.Keys <= core.table.inodes.Keys;
    SubsetSize(core.dirs.Keys, core.table.inodes.Keys);
    if 0 in core.dirs {
      IdentifierInRange(core.table, 0, limits);
    }
  }

  lemma CrossChecks(core: Core, limits: ImageLimits)
    requires CoreInv(core, limits) && Mountable(core, limits)
    requires InodeSection(core.table.inodes, limits).Ok? && DirectorySection(core.dirs, limits).Ok?
    ensures CrossChecked(core, limits)
  {
    hide CoreInv, EntriesOk, InodeSection, DirectorySection, RecordsFit, Fileable, Storable, Inode.Validate, DirectoryEntry.Validate, VerifiedTables;
    hide TreeOk, LinksOk, OwnershipOk, StillOk, Table.Valid, InodeFits;
    InvPieces(core, limits);
    TableCount(core.table, limits);
    InodesVerified(core, limits);
    DirectoriesFileable(core, limits);
    forall d, i | d in core.dirs && 0 <= i < |core.dirs[d]| ensures core.dirs[d][i].Validate(limits).Ok? {
      FileableDecodes(core.dirs[d], limits);
    }
    RootFiled(core, limits);
    TablesVerify(core.Names(), limits);
  }

  /** A record of the root's table is refused where the limit does not admit its two dot entries. */
  lemma RootFiled(core: Core, limits: ImageLimits)
    requires CoreInv(core, limits) && forall d :: d in core.dirs ==> Fileable(core.dirs[d], limits)
    ensures limits.maxDirectoryEntries >= 2
  {
    hide CoreInv, Fileable, LinksOk, OwnershipOk, StillOk, EntriesOk, Table.Valid;
    InvPieces(core, limits);
    TreeRoot(core.Names(), limits);
    assert Fileable(core.dirs[core.superblock.rootInode], limits);
    FileableDecodes(core.dirs[core.superblock.rootInode], limits);
  }

  lemma InodesVerified(core: Core, limits: ImageLimits)
    requires CoreInv(core, limits) && Mountable(core, limits) && InodeSection(core.table.inodes, limits).Ok?
    requires |core.table.inodes| <= limits.maxInodes
    ensures core.superblock.blockSize > 0 && Verified(core.table, core.superblock, limits)
  {
    hide CoreInv, EncodeInode, InodeSection, Mountable, Inode.Validate;
    InodesStorable(core, limits);
  }

  /** The superblock a mount starts from has the geometry that decoding looks at. */
  lemma SameGeometry(inode: Inode, a: Superblock, b: Superblock, limits: ImageLimits)
    requires a.blockSize == b.blockSize > 0 && a.blockCount == b.blockCount
    ensures inode.Validate(a, limits) == inode.Validate(b, limits)
  {
    hide Normalize, AttributesFit;
  }

  lemma StorableUnder(core: Core, superblock: Superblock, limits: ImageLimits)
    requires core.superblock.blockSize == superblock.blockSize > 0 && core.superblock.blockCount == superblock.blockCount
    requires forall k :: k in core.table.inodes ==> Storable(core.table.inodes[k], k, core.superblock, limits)
    ensures forall k :: k in core.table.inodes ==> Storable(core.table.inodes[k], k, superblock, limits)
  {
    hide Inode.Validate, EncodeInode;
    forall k | k in core.table.inodes ensures Storable(core.table.inodes[k], k, superblock, limits) {
      assert Storable(core.table.inodes[k], k, core.superblock, limits);
      SameGeometry(core.table.inodes[k], core.superblock, superblock, limits);
    }
  }

  lemma VerifiedUnder(core: Core, superblock: Superblock, limits: ImageLimits)
    requires core.superblock.blockSize == superblock.blockSize > 0 && core.superblock.blockCount == superblock.blockCount
    requires core.superblock.rootInode == superblock.rootInode && CrossChecked(core, limits)
    ensures CrossChecked(core.(superblock := superblock), limits)
  {
    hide Inode.Validate, VerifiedTables;
    forall k | k in core.table.inodes ensures core.table.inodes[k].Validate(superblock, limits).Ok? {
      SameGeometry(core.table.inodes[k], core.superblock, superblock, limits);
    }
  }

  lemma CrossCheckIgnores(core: Core, allocation: Allocation, limits: ImageLimits)
    requires core.superblock.blockSize > 0
    ensures CrossChecked(core.(allocation := allocation), limits) == CrossChecked(core, limits)
  {
    hide Verified, VerifiedTables;
  }

  lemma TableFacts(table: Table, limits: ImageLimits)
    requires table.Valid(limits)
    ensures table.next >= 1
  {
  }

  /** Each part of the loaded state, from the sections of the serialized one. */
  lemma PartsLoad(fs: Fs, s: Sections, superblock: Superblock, limits: ImageLimits)
    requires FsInv(fs, limits) && Mountable(fs.core, limits) && SectionsOf(fs, limits) == Ok(s)
    requires HEADER_SIZE + |s.Joined()| <= limits.maxImageBytes
    requires superblock.blockSize == fs.core.superblock.blockSize > 0
    requires superblock.blockCount == fs.core.superblock.blockCount && superblock.rootInode == fs.core.superblock.rootInode
    ensures OpenDevice(s.device, superblock.blockSize, limits) == Ok(fs.core.device)
    ensures LoadAllocation(superblock.blockCount, s.bitmap, limits) == Ok(Allocation(fs.core.allocation.count, fs.core.allocation.used, 0))
    ensures LoadInodes(s.inodes, |fs.core.table.inodes|, fs.core.table.next, superblock, limits) == Ok(fs.core.table)
    ensures LoadDirectories(s.directories, |fs.core.table.inodes|, limits) == Ok(fs.core.dirs)
    ensures DecodeJournal(s.journal, limits) == Ok(AllStamped(fs.journal.records))
    ensures CrossChecked(fs.core.(superblock := superblock, allocation := Allocation(fs.core.allocation.count, fs.core.allocation.used, 0)), limits)
  {
    SectionsAre(fs, s, limits);
    StateParts(fs, limits);
    hide FsInv, CoreInv, SectionsOf, InodeSection, DirectorySection, EncodeJournal, LoadInodes, LoadDirectories, DecodeJournal, OpenDevice, LoadAllocation, CrossChecked, Mountable, Storable, Fileable, Table.Valid, Journals.LogOk, LegalTypes, StoreOk, GeometryOk, Allocation.Valid, AllStamped, RecordsFit, InodeFits;
    var core := fs.core;
    OpensDevice(core, limits);
    LoadsAllocation(core, limits);
    InodesStorable(core, limits);
    StorableUnder(core, superblock, limits);
    TableFacts(core.table, limits);
    DirsWithinInodes(core, limits);
    LoadsInodes(core.table.inodes, core.table.next, superblock, limits);
    RecordsOf(core, limits);
    DirectoriesFileable(core, limits);
    LoadsDirectories(core.dirs, |core.table.inodes|, limits);
    LoadsJournal(fs.journal, limits);
    CrossChecks(core, limits);
    VerifiedUnder(core, superblock, limits);
    CrossCheckIgnores(core.(superblock := superblock), Allocation(core.allocation.count, core.allocation.used, 0), limits);
  }

  lemma RecordsOf(core: Core, limits: ImageLimits)
    requires Mountable(core, limits)
    ensures RecordsFit(core, limits)
  {
  }

  lemma SectionsAre(fs: Fs, s: Sections, limits: ImageLimits)
    requires SectionsOf(fs, limits) == Ok(s)
    ensures s.bitmap == fs.core.allocation.Bitmap() && s.device == fs.core.device.bytes
    ensures InodeSection(fs.core.table.inodes, limits) == Ok(s.inodes)
    ensures DirectorySection(fs.core.dirs, limits) == Ok(s.directories)
    ensures EncodeJournal(fs.journal.records, limits) == Ok(s.journal)
  {
    hide InodeSection, DirectorySection, EncodeJournal;
  }

  lemma StateParts(fs: Fs, limits: ImageLimits)
    requires FsInv(fs, limits)
    ensures CoreInv(fs.core, limits) && Journals.LogOk(fs.journal, limits) && LegalTypes(fs.journal) && fs.mounted
    ensures StoreOk(fs.core.Files(), fs.core.superblock) && GeometryOk(fs.core, limits) && fs.core.table.Valid(limits)
    ensures fs.core.allocation.Valid() && fs.core.allocation.count == fs.core.superblock.blockCount
    ensures 0 < fs.core.superblock.blockCount <= limits.maxBlocks && fs.core.superblock.version == 1
    ensures |fs.core.table.inodes| <= limits.maxInodes && |fs.core.table.inodes| < TWO32
  {
    TableCount(fs.core.table, limits) by { InvPieces(fs.core, limits); }
    hide Journals.LogOk, LegalTypes, OwnershipOk, TreeOk, LinksOk, InodesOk, Table.Valid, Allocation.Valid;
  }

  lemma SectionsRebuild(fs: Fs, s: Sections, checksum: u32, limits: ImageLimits)
    requires FsInv(fs, limits) && Mountable(fs.core, limits) && SectionsOf(fs, limits) == Ok(s)
    requires HEADER_SIZE + |s.Joined()| <= limits.maxImageBytes
    ensures FitWidths(HeaderWords(fs, s, checksum), HEADER_WIDTHS)
    ensures var r := LoadSections(s, HeaderWords(fs, s, checksum), limits);
            r.Ok? && Rebuilt(fs.core, r.value, fs.journal, fs.dirty) && r.value.core.Refreshed(limits) == r.value.core
  {
    hide VerifyTable, VerifyDirectories, FsInv, CoreInv, SectionsOf, HeaderWords, LoadInodes, LoadDirectories, DecodeJournal, OpenDevice, LoadAllocation, CrossChecked, Mountable;
    hide Table.Valid, Journals.LogOk, LegalTypes, StoreOk, GeometryOk, Allocation.Valid, AllStamped, Journals.Load, Allocation.Free, FitWidths, Beyond, Core.Refreshed, LoadedSuperblock;
    StateParts(fs, limits);
    HeaderFits(fs, s, checksum);
    HeaderMeans(fs, s, checksum, limits);
    LoadsJournal(fs.journal, limits);
    var w := HeaderWords(fs, s, checksum);
    var allocation := Allocation(fs.core.allocation.count, fs.core.allocation.used, 0);
    MountablePositive(fs.core, limits);
    WordSizes();
    var superblock := LoadedSuperblock(w, allocation, limits);
    SuperblockLoaded(w, allocation, limits);
    PartsLoad(fs, s, superblock, limits);
    var core := Core(superblock, fs.core.device, allocation, fs.core.table, fs.core.dirs);
    assert core == fs.core.(superblock := superblock, allocation := allocation);
    CrossCheckIs(core, limits);
    CountersLoaded(w, core, limits);
  }

  lemma SuperblockLoaded(w: seq<nat>, allocation: Allocation, limits: ImageLimits)
    requires FitWidths(w, HEADER_WIDTHS)
    ensures |w| == |HEADER_WIDTHS|
    ensures var superblock := LoadedSuperblock(w, allocation, limits);
            && superblock.version == 1 && superblock.blockSize == w[1] && superblock.blockCount == w[2]
            && superblock.rootInode == w[4] && superblock.generation == w[5]
  {
    hide Allocation.Free;
  }

  /** The counters of a loaded state are those a refresh would compute. */
  lemma CountersLoaded(w: seq<nat>, core: Core, limits: ImageLimits)
    requires FitWidths(w, HEADER_WIDTHS) && |w| == |HEADER_WIDTHS|
    requires core.superblock == LoadedSuperblock(w, core.allocation, limits) && w[3] == |core.table.inodes| < TWO32
    ensures core.Refreshed(limits) == core
  {
    hide Allocation.Free, FitWidths;
    WrapSmall(w[3]);
  }

  lemma MountablePositive(core: Core, limits: ImageLimits)
    requires Mountable(core, limits)
    ensures core.superblock.blockSize > 0
  {
  }

  /** The image is opened at all: a dirty one only if the options allow it or ask for a replay. */
  predicate Opens(dirty: bool, options: MountOptions) {
    !dirty || options.allowDirty || options.replayJournal
  }

  lemma HeaderAccepted(fs: Fs, s: Sections, options: MountOptions, limits: ImageLimits)
    requires FsInv(fs, limits) && SectionsOf(fs, limits) == Ok(s)
    requires HEADER_SIZE + |s.Joined()| <= limits.maxImageBytes
    ensures CheckWords(HeaderWords(fs, s, Crc32(s.Joined())), s.Joined(), options, limits) ==
            if Opens(fs.dirty, options) then Ok(()) else Err(JournalError)
  {
    hide FsInv, CoreInv, SectionsOf, HeaderWords, Crc32, Journals.LogOk, LegalTypes, StoreOk, GeometryOk, Allocation.Valid, Table.Valid;
    StateParts(fs, limits);
    SectionsAre(fs, s, limits);
    HeaderMeans(fs, s, Crc32(s.Joined()), limits);
    OpensDevice(fs.core, limits);
  }

  lemma LoadsSerialized(fs: Fs, options: MountOptions, limits: ImageLimits)
    requires FsInv(fs, limits) && Mountable(fs.core, limits) && Serialize(fs, limits).Ok?
    ensures var r := LoadImage(Serialize(fs, limits).value, options, limits);
            if Opens(fs.dirty, options) then
              r.Ok? && Rebuilt(fs.core, r.value, fs.journal, fs.dirty) && r.value.core.Refreshed(limits) == r.value.core
            else
              r == Err(JournalError)
  {
    hide FsInv, CoreInv, SectionsOf, Mountable, HeaderWords, Crc32, LoadSections, CheckHeader, ImageWords, Header, CutSections, Rebuilt, FitWidths, Sections.Joined, Journals.LogOk, LegalTypes, StoreOk, GeometryOk;
    var s := SectionsOf(fs, limits).value;
    var body := s.Joined();
    var checksum := Crc32(body);
    StateParts(fs, limits);
    HeaderFits(fs, s, checksum);
    HeaderParts(fs, s, checksum, body);
    HeaderAccepted(fs, s, options, limits);
    HeaderMeans(fs, s, checksum, limits);
    CutJoined(s, HeaderWords(fs, s, checksum));
    SectionsRebuild(fs, s, checksum, limits);
    CheckedHeader(Serialize(fs, limits).value, options, limits);
  }

  lemma CheckedHeader(data: seq<byte>, options: MountOptions, limits: ImageLimits)
    requires HEADER_SIZE <= |data| <= limits.maxImageBytes && data[..8] == IMAGE_MAGIC
    ensures CheckHeader(data, options, limits) == CheckWords(ImageWords(data), data[HEADER_SIZE..], options, limits)
  {
    hide CheckWords, ImageWords;
  }

  /** Round trip of a whole filesystem. Mounting what was serialized is refused outright exactly when it
      is dirty and the options neither allow that nor ask for a replay. Otherwise it rebuilds device,
      bitmap, inodes, next identifier, directories, dirty flag, geometry, root, generation and journal,
      the last with its checksums filled in and the counters its records show; the invariant holds again;
      and the call succeeds unless a replay was asked for inside a transaction. */
  lemma ImageRoundTrip(fs: Fs, over: Fs, options: MountOptions, limits: ImageLimits)
    requires FsInv(fs, limits) && Mountable(fs.core, limits) && Serialize(fs, limits).Ok?
    ensures var (next, r) := Mount(over, Serialize(fs, limits).value, options, limits);
            && (r.Ok? <==> Opens(fs.dirty, options) && !(options.replayJournal && fs.journal.active != 0 && !options.allowDirty))
            && if Opens(fs.dirty, options) then
                 && next.mounted && next.readOnly == options.readOnly && next.snapshot.None?
                 && Rebuilt(fs.core, Loaded(next.core, next.journal, next.dirty), fs.journal, fs.dirty)
                 && next.core.superblock.inodeCount == |fs.core.table.inodes|
                 && (Journals.FirstSequence(fs.journal) == 1 && Journals.FirstTransaction(fs.journal) == 1 ==>
                       next.journal == fs.journal.(records := AllStamped(fs.journal.records)))
                 && CoreInv(next.core, limits)
               else
                 next == over && r == Err(JournalError)
  {
    hide Journals.FirstSequence, Journals.FirstTransaction, Restored, FsInv, CoreInv, Serialize, LoadImage, Mount, Mountable, Rebuilt, Journals.LogOk, LegalTypes, StoreOk, GeometryOk, Core.Refreshed;
    StateParts(fs, limits);
    LoadsSerialized(fs, options, limits);
    var loaded := LoadImage(Serialize(fs, limits).value, options, limits);
    MountCases(over, Serialize(fs, limits).value, options, limits);
    if loaded.Ok? {
      var l := loaded.value;
      RebuiltActive(fs.core, l, fs.journal, fs.dirty);
      RefreshedRebuilt(fs.core, l, fs.journal, fs.dirty, limits);
      RebuiltInv(fs.core, l, fs.journal, fs.dirty, limits);
      RestoredFresh(fs.journal, limits);
      RebuiltJournal(fs.core, l, fs.journal, fs.dirty);
    }
  }

  /** A mount that fails leaves the filesystem as it was exactly when the image does not load or is not
      forbidden by the options once loaded; a forbidden one has replaced everything, down to which the
      filesystem would have to be the same already. */
  lemma FailedMount(over: Fs, data: seq<byte>, options: MountOptions, limits: ImageLimits)
    ensures var (next, r) := Mount(over, data, options, limits);
            var loaded := LoadImage(data, options, limits);
            && (r.Err? <==> loaded.Err? || Forbidden(loaded.value, options))
            && (r.Err? ==> (next == over <==> loaded.Err? || over == Replacement(loaded.value, options)))
            && (loaded.Ok? && Forbidden(loaded.value, options) ==> next == Replacement(loaded.value, options))
  {
    hide LoadImage, Core.Refreshed;
  }

  lemma MountCases(over: Fs, data: seq<byte>, options: MountOptions, limits: ImageLimits)
    ensures Mount(over, data, options, limits) ==
            match LoadImage(data, options, limits)
            case Err(code) => (over, Err(code))
            case Ok(l) =>
              if Forbidden(l, options) then (Replacement(l, options), Err(JournalError))
              else (Replacement(l, options).(core := l.core.Refreshed(limits)), Ok(()))
  {
    hide LoadImage, Core.Refreshed;
  }

  lemma RebuiltActive(core: Core, l: Loaded, journal: Journals.Log, dirty: bool)
    requires Rebuilt(core, l, journal, dirty)
    ensures l.journal.active == journal.active
  {
    hide AllStamped, Journals.Begins;
  }

  /** A failed mount that does not leave the filesystem alone: the image was made inside a transaction,
      and a replay is asked for without allowing a dirty image. */
  lemma ReplayReplaces(fs: Fs, over: Fs, options: MountOptions, limits: ImageLimits)
    requires FsInv(fs, limits) && Mountable(fs.core, limits) && Serialize(fs, limits).Ok?
    requires fs.journal.active != 0 && options.replayJournal && !options.allowDirty && !over.mounted
    ensures var (next, r) := Mount(over, Serialize(fs, limits).value, options, limits);
            r.Err? && next != over && Rebuilt(fs.core, Loaded(next.core, next.journal, next.dirty), fs.journal, fs.dirty)
  {
    hide FsInv, CoreInv, Serialize, Mount, Mountable, Rebuilt;
    ImageRoundTrip(fs, over, options, limits);
    var (next, r) := Mount(over, Serialize(fs, limits).value, options, limits);
    assert !r.Ok?;
  }

  lemma RefreshedRebuilt(core: Core, l: Loaded, journal: Journals.Log, dirty: bool, limits: ImageLimits)
    requires Rebuilt(core, l, journal, dirty) && |core.table.inodes| < TWO32
    ensures Rebuilt(core, l.(core := l.core.Refreshed(limits)), journal, dirty)
    ensures l.core.Refreshed(limits).superblock.inodeCount == |core.table.inodes|
  {
    hide Restored, Allocation.Free;
  }

  lemma RefreshedInv(core: Core, limits: ImageLimits)
    requires CoreInv(core, limits)
    ensures CoreInv(core.Refreshed(limits), limits)
  {
    hide CoreInv, Allocation.Free, Table.Valid;
    CountedParts(core, limits);
    TableCount(core.table, limits);
    FreeWithin(core.allocation);
    SuperblockChange(core, core.Refreshed(limits).superblock, limits);
  }

  lemma HintDropped(core: Core, limits: ImageLimits)
    requires CoreInv(core, limits)
    ensures CoreInv(core.(allocation := Allocation(core.allocation.count, core.allocation.used, 0)), limits)
  {
    var next := core.(allocation := Allocation(core.allocation.count, core.allocation.used, 0));
    InvPieces(core, limits);
    assert next.allocation.Valid();
    hide OwnershipOk, TreeOk, LinksOk, EntriesOk, InodeOk, Table.Valid, Allocation.Valid;
    assert next.Names() == core.Names();
    InvAfterDrop(core, next, limits);
  }

  /** The rebuilt state satisfies the invariant again. */
  lemma RebuiltInv(core: Core, l: Loaded, journal: Journals.Log, dirty: bool, limits: ImageLimits)
    requires CoreInv(core, limits) && Rebuilt(core, l, journal, dirty)
    ensures CoreInv(l.core.Refreshed(limits), limits)
  {
    hide CoreInv, Restored, Core.Refreshed;
    HintDropped(core, limits);
    var blank := l.core.superblock.(inodeCount := 0, freeInodeCount := 0, freeBlockCount := 0);
    var hinted := core.(allocation := Allocation(core.allocation.count, core.allocation.used, 0));
    SuperblockChange(hinted, blank, limits);
    RefreshedInv(hinted.(superblock := blank), limits);
    SameRefreshed(l.core, blank, limits);
    assert l.core.(superblock := blank) == hinted.(superblock := blank);
  }

  lemma SameRefreshed(core: Core, blank: Superblock, limits: ImageLimits)
    requires blank == core.superblock.(inodeCount := 0, freeInodeCount := 0, freeBlockCount := 0)
    ensures core.(superblock := blank).Refreshed(limits) == core.Refreshed(limits)
  {
    hide Allocation.Free;
  }

  /** Runs may go on from a reloaded image: files, names, links and blocks are in order, and journal and
      snapshot too exactly when the image was not made inside a transaction. */
  lemma ReloadIsSafe(fs: Fs, over: Fs, options: MountOptions, ops: seq<Op>, limits: ImageLimits)
    requires FsInv(fs, limits) && Mountable(fs.core, limits) && Serialize(fs, limits).Ok?
    requires Opens(fs.dirty, options) && !options.readOnly
    ensures var next := Mount(over, Serialize(fs, limits).value, options, limits).0;
            && Safe(next, limits) && Safe(Run(next, ops, limits), limits)
            && (FsInv(next, limits) <==> fs.journal.active == 0)
            && (fs.journal.active == 0 && Journals.Room(next.journal, Formats(ops), limits) ==> FsInv(Run(next, ops, limits), limits))
            && (fs.journal.active != 0 && Formats(ops) == 0 ==> Stuck(next) && Stuck(Run(next, ops, limits)))
  {
    hide CoreInv, Serialize, Mount, Mountable, Rebuilt, Journals.LogOk, LegalTypes, Core.Refreshed, Run, Formats, Journals.Room, Restored;
    ImageRoundTrip(fs, over, options, limits);
    var next := Mount(over, Serialize(fs, limits).value, options, limits).0;
    RestoredOk(fs.journal, limits);
    RebuiltJournal(fs.core, Loaded(next.core, next.journal, next.dirty), fs.journal, fs.dirty);
    assert Safe(next, limits);
    assert FsInv(next, limits) <==> fs.journal.active == 0;
    assert fs.journal.active != 0 ==> Stuck(next);
    hide FsInv, Safe, Stuck;
    if fs.journal.active == 0 {
      if Journals.Room(next.journal, Formats(ops), limits) {
        RunKeepsTracked(next, ops, limits);
      }
    } else if Formats(ops) == 0 {
      RunKeepsStuck(next, ops, limits);
    }
    RunKeepsSafe(next, ops, limits);
  }

  lemma RebuiltJournal(core: Core, l: Loaded, journal: Journals.Log, dirty: bool)
    requires Rebuilt(core, l, journal, dirty)
    ensures l.journal == Restored(journal)
  {
    hide Restored;
  }

  /** A serialized image with its body damaged within four consecutive bytes does not mount with
      checksums on, and the filesystem it was to replace stays as it was. */
  lemma DamagedImageRejected(fs: Fs, over: Fs, damaged: seq<byte>, at: nat, options: MountOptions, limits: ImageLimits)
    requires Serialize(fs, limits).Ok? && |Serialize(fs, limits).value| == |damaged| && |damaged| >= HEADER_SIZE
    requires |Serialize(fs, limits).value| >= HEADER_SIZE
    requires damaged[..HEADER_SIZE] == Serialize(fs, limits).value[..HEADER_SIZE]
    requires Burst(Serialize(fs, limits).value[HEADER_SIZE..], damaged[HEADER_SIZE..], at) && options.validateChecksums
    ensures Mount(over, damaged, options, limits).1.Err? && Mount(over, damaged, options, limits).0 == over
  {
    hide SectionsOf, Crc32, ImageWords, Burst, Mount, Header;
    var s := SectionsOf(fs, limits).value;
    HeaderParts(fs, s, Crc32(s.Joined()), s.Joined());
    DamageIsRejected(over, Serialize(fs, limits).value, damaged, at, options, limits);
  }
}
