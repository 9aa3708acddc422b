/** A whole filesystem as one byte string: header, bitmap, inodes, directories, journal and device. */
module Images {
  import opened Base
  import opened Bytes
  import opened Crc
  import opened Devices
  import opened Allocators
  import opened Inodes
  import opened InodeTables
  import opened Directories
  import opened InodeCodecs
  import opened DirectoryCodecs
  import opened JournalCodecs
  import Journals
  import opened FsModel

  const HEADER_SIZE: nat := 112
  const IMAGE_MAGIC: seq<byte> := [66, 70, 73, 77, 71, 49, 0, 0]

  /** Version, block size, block count, inode count, root, generation, the five section sizes, the next
      identifier, the checksum of the body and the flags. Eight zero bytes follow. */
  const HEADER_WIDTHS: seq<nat> := [4, 4, 8, 8, 8, 8, 8, 8, 8, 8, 8, 8, 4, 4]

  lemma HeaderWidthsSum()
    ensures Sum(HEADER_WIDTHS) == 96
  {
    assert HEADER_WIDTHS == [4, 4, 8, 8, 8] + ([8, 8, 8, 8, 8] + [8, 8, 4, 4]);
    SumConcat([4, 4, 8, 8, 8], [8, 8, 8, 8, 8] + [8, 8, 4, 4]);
    SumConcat([8, 8, 8, 8, 8], [8, 8, 4, 4]);
    SumFive(4, 4, 8, 8, 8);
    SumFive(8, 8, 8, 8, 8);
    SumFour(8, 8, 4, 4);
  }

  // ----- Sections -----

  function PutInodes(inodes: map<u64, Inode>, keys: seq<u64>, limits: ImageLimits): Result<seq<byte>>
    requires forall k :: k in keys ==> k in inodes
  {
    if keys == [] then Ok([])
    else
      var record :- EncodeInode(inodes[keys[0]], limits);
      var rest :- PutInodes(inodes, keys[1..], limits);
      Ok(PutText(record) + rest)
  }

  /** `encode_inodes`: a count, then every record behind its length, in order of identifier. */
  function InodeSection(inodes: map<u64, Inode>, limits: ImageLimits): Result<seq<byte>> {
    var records :- PutInodes(inodes, SortedKeys(inodes.Keys), limits);
    Ok(LittleEndian(Wrap32(|inodes|), 4) + records)
  }

  function PutDirectories(dirs: Dirs, keys: seq<u64>, limits: ImageLimits): Result<seq<byte>>
    requires forall k :: k in keys ==> k in dirs
  {
    if keys == [] then Ok([])
    else
      var record :- EncodeDirectory(dirs[keys[0]], limits);
      var rest :- PutDirectories(dirs, keys[1..], limits);
      Ok(LittleEndian(keys[0], 8) + (PutText(record) + rest))
  }

  function DirectorySection(dirs: Dirs, limits: ImageLimits): Result<seq<byte>> {
    var records :- PutDirectories(dirs, SortedKeys(dirs.Keys), limits);
    Ok(LittleEndian(Wrap32(|dirs|), 4) + records)
  }

  datatype Sections = Sections(bitmap: seq<byte>, inodes: seq<byte>, directories: seq<byte>, journal: seq<byte>, device: seq<byte>) {
    function Joined(): (body: seq<byte>)
      ensures |body| == |bitmap| + |inodes| + |directories| + |journal| + |device|
    {
      bitmap + (inodes + (directories + (journal + device)))
    }
  }

  function SectionsOf(fs: Fs, limits: ImageLimits): Result<Sections> {
    var inodes :- InodeSection(fs.core.table.inodes, limits);
    var directories :- DirectorySection(fs.core.dirs, limits);
    var journal :- EncodeJournal(fs.journal.records, limits);
    Ok(Sections(fs.core.allocation.Bitmap(), inodes, directories, journal, fs.core.device.bytes))
  }

  // ----- serialize -----

  function HeaderWords(fs: Fs, s: Sections, checksum: u32): (w: seq<nat>)
    ensures |w| == |HEADER_WIDTHS|
  {
    [1, fs.core.superblock.blockSize, fs.core.superblock.blockCount, Wrap64(|fs.core.table.inodes|),
     fs.core.superblock.rootInode, fs.core.superblock.generation, Wrap64(|s.bitmap|), Wrap64(|s.inodes|),
     Wrap64(|s.directories|), Wrap64(|s.journal|), Wrap64(|s.device|), fs.core.table.next, checksum,
     if fs.dirty then 1 else 0]
  }

  function Header(fs: Fs, s: Sections, checksum: u32): seq<byte> {
    IMAGE_MAGIC + (PutWords(HeaderWords(fs, s, checksum), HEADER_WIDTHS) + Zeros(8))
  }

  function Serialize(fs: Fs, limits: ImageLimits): Result<seq<byte>> {
    if !fs.mounted then Err(InternalError)
    else
      var s :- SectionsOf(fs, limits);
      var body := s.Joined();
      if HEADER_SIZE + |body| > limits.maxImageBytes then Err(ResourceLimit)
      else Ok(Header(fs, s, Crc32(body)) + body)
  }

  // ----- mount -----

  datatype MountOptions = MountOptions(readOnly: bool, replayJournal: bool, allowDirty: bool, validateChecksums: bool)

  function ImageWords(data: seq<byte>): (w: seq<nat>)
    requires |data| >= HEADER_SIZE
    ensures FitWidths(w, HEADER_WIDTHS)
  {
    HeaderWidthsSum();
    WordsAt(data, 8, HEADER_WIDTHS)
  }

  /** Everything decided by the header and the checksum of the body. The size of the device is a 64-bit
      field, so a product equal to it has not overflowed. */
  function CheckHeader(data: seq<byte>, options: MountOptions, limits: ImageLimits): Result<()> {
    if |data| < HEADER_SIZE then Err(Truncated)
    else if |data| > limits.maxImageBytes || data[..8] != IMAGE_MAGIC then Err(InvalidSignature)
    else CheckWords(ImageWords(data), data[HEADER_SIZE..], options, limits)
  }

  function CheckWords(w: seq<nat>, body: seq<byte>, options: MountOptions, limits: ImageLimits): Result<()>
    requires |w| == |HEADER_WIDTHS|
  {
    if w[0] != 1 then Err(InvalidVersion)
    else if w[13] > 1 || w[3] > limits.maxInodes || w[6] != CeilDivide(w[2], 8) then Err(ResourceLimit)
    else if w[1] * w[2] != w[10] then Err(Overflow)
    else if options.validateChecksums && Crc32(body) != w[12] then Err(ChecksumMismatch)
    else if w[13] == 1 && !options.allowDirty && !options.replayJournal then Err(JournalError)
    else Ok(())
  }

  /** `slice_section`. */
  function TakeSection(input: seq<byte>, length: nat): (r: Result<(seq<byte>, seq<byte>)>)
    ensures r.Ok? ==> input == r.value.0 + r.value.1
  {
    if length > |input| then Err(InvalidOffset) else Ok((input[..length], input[length..]))
  }

  function CutSections(body: seq<byte>, w: seq<nat>): Result<Sections>
    requires |w| == |HEADER_WIDTHS|
  {
    var (bitmap, b1) :- TakeSection(body, w[6]);
    var (inodes, b2) :- TakeSection(b1, w[7]);
    var (directories, b3) :- TakeSection(b2, w[8]);
    var (journal, b4) :- TakeSection(b3, w[9]);
    var (device, rest) :- TakeSection(b4, w[10]);
    if rest != [] then Err(InvalidOffset) else Ok(Sections(bitmap, inodes, directories, journal, device))
  }

  /** A length-prefixed record; a bad length counts as truncation. */
  function TakeRecordBytes(input: seq<byte>): Result<(seq<byte>, seq<byte>)> {
    var (length, rest) :- TakeWord(input, 4);
    if length > |rest| then Err(Truncated) else Ok((rest[..length], rest[length..]))
  }

  function TakeInodes(input: seq<byte>, count: nat, table: Table, superblock: Superblock, limits: ImageLimits): Result<(Table, seq<byte>)>
    requires superblock.blockSize > 0
    decreases count
  {
    if count == 0 then Ok((table, input))
    else
      var (record, rest) :- TakeRecordBytes(input);
      var inode :- DecodeInode(record, superblock, limits);
      var grown :- table.Insert(limits, inode);
      TakeInodes(rest, count - 1, grown, superblock, limits)
  }

  function LoadInodes(section: seq<byte>, count: nat, next: u64, superblock: Superblock, limits: ImageLimits): Result<Table>
    requires superblock.blockSize > 0
  {
    var encoded := TakeWord(section, 4);
    if encoded.Err? || encoded.value.0 != count then Err(InvalidInode)
    else
      var (table, rest) :- TakeInodes(encoded.value.1, count, Table(map[], 1), superblock, limits);
      if rest != [] then Err(InvalidOffset) else Ok(table.(next := Max(1, next)))
  }

  function TakeDirectories(input: seq<byte>, count: nat, dirs: Dirs, limits: ImageLimits): Result<(Dirs, seq<byte>)>
    decreases count
  {
    if count == 0 then Ok((dirs, input))
    else
      WordSizes();
      var (id, behind) :- TakeWord(input, 8);
      var (record, rest) :- TakeRecordBytes(behind);
      var entries :- DecodeDirectory(record, limits);
      var grown :- Load(dirs, id, entries, limits);
      TakeDirectories(rest, count - 1, grown, limits)
  }

  function LoadDirectories(section: seq<byte>, count: nat, limits: ImageLimits): Result<Dirs> {
    var encoded := TakeWord(section, 4);
    if encoded.Err? || encoded.value.0 > count then Err(InvalidDirectory)
    else
      var (dirs, rest) :- TakeDirectories(encoded.value.1, encoded.value.0, map[], limits);
      if rest != [] then Err(InvalidOffset) else Ok(dirs)
  }

  datatype Loaded = Loaded(core: Core, journal: Journals.Log, dirty: bool)

  function LoadedSuperblock(w: seq<nat>, allocation: Allocation, limits: ImageLimits): Superblock
    requires FitWidths(w, HEADER_WIDTHS)
  {
    WordSizes();
    Superblock(1, w[1], w[2], w[3], Wrap64(|allocation.Free()|),
               if limits.maxInodes > w[3] then limits.maxInodes - w[3] else 0, w[4], w[5], 0)
  }

  /** The tables agree with each other: the last checks before anything is replaced. */
  ghost predicate CrossChecked(core: Core, limits: ImageLimits)
    requires core.superblock.blockSize > 0
  {
    Verified(core.table, core.superblock, limits) && VerifiedTables(core.dirs, core.table.inodes, core.superblock.rootInode, limits)
  }

  lemma CrossCheckIs(core: Core, limits: ImageLimits)
    requires core.superblock.blockSize > 0
    ensures CrossChecked(core, limits) <==>
            VerifyTable(core.table, core.superblock, limits).Ok?
            && VerifyDirectories(core.dirs, core.table.inodes, core.superblock.rootInode, limits).Ok?
  {
    hide Verified, VerifiedTables, VerifyDirectories;
    VerifyDirectoriesMeans(core.dirs, core.table.inodes, core.superblock.rootInode, limits);
  }

  /** `mount` up to the replacement of the current contents. */
  function LoadImage(data: seq<byte>, options: MountOptions, limits: ImageLimits): Result<Loaded> {
    var _ :- CheckHeader(data, options, limits);
    WordSizes();
    var w := ImageWords(data);
    var s :- CutSections(data[HEADER_SIZE..], w);
    LoadSections(s, w, limits)
  }

  function LoadSections(s: Sections, w: seq<nat>, limits: ImageLimits): Result<Loaded>
    requires FitWidths(w, HEADER_WIDTHS)
  {
    WordSizes();
    var (device, allocation) :- LoadStore(s, w, limits);
    var superblock := LoadedSuperblock(w, allocation, limits);
    var (table, dirs) :- LoadTables(s, w, superblock, limits);
    var journal :- LoadJournal(s, limits);
    var core := Core(superblock, device, allocation, table, dirs);
    var _ :- VerifyTable(table, superblock, limits);
    var _ :- VerifyDirectories(dirs, table.inodes, superblock.rootInode, limits);
    Ok(Loaded(core, journal, w[13] == 1))
  }

  function LoadStore(s: Sections, w: seq<nat>, limits: ImageLimits): (r: Result<(Device, Allocation)>)
    requires FitWidths(w, HEADER_WIDTHS)
    ensures r.Ok? ==> w[1] > 0
  {
    WordSizes();
    var device :- OpenDevice(s.device, w[1], limits);
    var allocation :- LoadAllocation(w[2], s.bitmap, limits);
    Ok((device, allocation))
  }

  function LoadTables(s: Sections, w: seq<nat>, superblock: Superblock, limits: ImageLimits): Result<(Table, Dirs)>
    requires FitWidths(w, HEADER_WIDTHS) && superblock.blockSize > 0
  {
    WordSizes();
    var table :- LoadInodes(s.inodes, w[3], w[11], superblock, limits);
    var dirs :- LoadDirectories(s.directories, w[3], limits);
    Ok((table, dirs))
  }

  function LoadJournal(s: Sections, limits: ImageLimits): Result<Journals.Log> {
    var records :- DecodeJournal(s.journal, limits);
    Journals.Load(records, limits)
  }

  /** What a mount puts in place of the current contents. */
  function Replacement(l: Loaded, options: MountOptions): Fs {
    Fs(l.core, l.journal, true, options.readOnly, l.dirty, None)
  }

  /** The image ends in an open transaction, and the options ask for a replay but not for a dirty image. */
  predicate Forbidden(l: Loaded, options: MountOptions) {
    options.replayJournal && l.journal.active != 0 && !options.allowDirty
  }

  /** An image with an open transaction is taken over before the options are found to forbid it. */
  function Mount(fs: Fs, data: seq<byte>, options: MountOptions, limits: ImageLimits): (Fs, Result<()>) {
    match LoadImage(data, options, limits)
    case Err(code) => (fs, Err(code))
    case Ok(l) =>
      if Forbidden(l, options) then (Replacement(l, options), Err(JournalError))
      else (Replacement(l, options).(core := l.core.Refreshed(limits)), Ok(()))
  }
}
