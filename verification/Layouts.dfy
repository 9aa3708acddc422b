/** The bytes of an image and its records, field by field: where each is, how wide, lowest byte first. */
module Layouts {
  import opened Base
  import opened Bytes
  import opened Crc
  import opened Devices
  import opened Extents
  import opened Allocators
  import opened Inodes
  import opened InodeTables
  import opened Directories
  import PathTheorems
  import opened InodeCodecs
  import opened DirectoryCodecs
  import opened JournalCodecs
  import opened Images
  import Journals
  import opened FsModel

  // ----- Words -----

  function Power(k: nat): (p: nat)
    ensures p > 0
  {
    if k == 0 then 1 else 256 * Power(k - 1)
  }

  /** `width` bytes from `offset` on hold the value, the lowest byte first. */
  predicate Holds(data: seq<byte>, offset: nat, width: nat, value: nat) {
    offset + width <= |data| && forall k: nat :: k < width ==> data[offset + k] == value / Power(k) % 256
  }

  lemma ByteLower(x: nat, d: nat)
    requires d > 0
    ensures x / 256 / d == x / (256 * d)
  {
    var y := x / 256;
    var q, r := y / d, y % d;
    Scaled(q, d);
    assert x == q * (256 * d) + (256 * r + x % 256);
    DivModUnique(q, 256 * r + x % 256, 256 * d);
  }

  lemma Scaled(q: int, d: int)
    ensures q * (256 * d) == 256 * (q * d)
  {
  }

  lemma {:induction false} Digits(value: nat, width: nat, k: nat)
    requires k < width
    ensures LittleEndian(value, width)[k] == value / Power(k) % 256
    decreases k
  {
    if k > 0 {
      Digits(value / 256, width - 1, k - 1);
      ByteLower(value, Power(k - 1));
    }
  }

  lemma WordHolds(head: seq<byte>, value: nat, width: nat, rest: seq<byte>)
    ensures Holds(head + (LittleEndian(value, width) + rest), |head|, width, value)
  {
    var data := head + (LittleEndian(value, width) + rest);
    forall k: nat | k < width ensures data[|head| + k] == value / Power(k) % 256 {
      Digits(value, width, k);
      assert data[|head| + k] == LittleEndian(value, width)[k];
    }
  }

  /** The fields from the `i`-th on, one after the other. */
  predicate Layout(data: seq<byte>, offset: nat, values: seq<nat>, widths: seq<nat>, i: nat)
    requires |values| == |widths|
    decreases |widths| - i
  {
    i >= |widths| || (Holds(data, offset, widths[i], values[i]) && Layout(data, offset + widths[i], values, widths, i + 1))
  }

  lemma {:induction false} PutLayout(head: seq<byte>, values: seq<nat>, widths: seq<nat>, i: nat, rest: seq<byte>)
    requires |values| == |widths| && i <= |widths|
    ensures Layout(head + (PutWords(values[i..], widths[i..]) + rest), |head|, values, widths, i)
    decreases |widths| - i
  {
    if i < |widths| {
      var first, tail := LittleEndian(values[i], widths[i]), PutWords(values[i + 1..], widths[i + 1..]);
      assert values[i..][1..] == values[i + 1..] && widths[i..][1..] == widths[i + 1..];
      assert PutWords(values[i..], widths[i..]) == first + tail;
      hide LittleEndian, PutWords, Holds;
      FirstField(head, first, tail, rest);
      PutLayout(head + first, values, widths, i + 1, rest);
      assert head + ((first + tail) + rest) == head + (first + (tail + rest));
      WordHolds(head, values[i], widths[i], tail + rest);
    }
  }

  lemma WordsLayout(head: seq<byte>, values: seq<nat>, widths: seq<nat>, rest: seq<byte>)
    requires |values| == |widths|
    ensures Layout(head + (PutWords(values, widths) + rest), |head|, values, widths, 0)
  {
    hide PutWords, Layout;
    PutLayout(head, values, widths, 0, rest);
    assert values[0..] == values && widths[0..] == widths;
  }

  // ----- The header -----

  /** The first eight bytes of an image, the fourteen fields at their places, eight zero bytes, and from byte 112
      on the five sections in their order. */
  lemma HeaderLayout(fs: Fs, image: seq<byte>, limits: ImageLimits)
    requires Serialize(fs, limits) == Ok(image)
    ensures SectionsOf(fs, limits).Ok? && |image| >= 112
    ensures image[..8] == [66, 70, 73, 77, 71, 49, 0, 0]
    ensures var super := fs.core.superblock;
            && Holds(image, 8, 4, 1) && Holds(image, 12, 4, super.blockSize) && Holds(image, 16, 8, super.blockCount)
            && Holds(image, 24, 8, |fs.core.table.inodes| % TWO64) && Holds(image, 32, 8, super.rootInode)
            && Holds(image, 40, 8, super.generation)
    ensures var s := SectionsOf(fs, limits).value;
            && Holds(image, 48, 8, |s.bitmap| % TWO64) && Holds(image, 56, 8, |s.inodes| % TWO64)
            && Holds(image, 64, 8, |s.directories| % TWO64) && Holds(image, 72, 8, |s.journal| % TWO64)
            && Holds(image, 80, 8, |fs.core.device.bytes| % TWO64) && Holds(image, 88, 8, fs.core.table.next)
            && Holds(image, 96, 4, Crc32(image[112..])) && Holds(image, 100, 4, if fs.dirty then 1 else 0)
            && (forall k :: 104 <= k < 112 ==> image[k] == 0)
            && image[112..] == s.bitmap + s.inodes + s.directories + s.journal + fs.core.device.bytes
  {
    hide Crc32, SectionsOf, PutWords, Layout, Holds, HeaderWords, Sections.Joined, Zeros, Header;
    var s := SectionsOf(fs, limits).value;
    var body := s.Joined();
    SectionDevice(fs, limits);
    JoinedIs(s);
    HeaderIs(fs, s, Crc32(body));
    HeaderShape(HeaderWords(fs, s, Crc32(body)), body);
    HeaderHolds(image, fs, s, Crc32(body));
  }

  lemma HeaderIs(fs: Fs, s: Sections, checksum: u32)
    ensures Header(fs, s, checksum) == IMAGE_MAGIC + (PutWords(HeaderWords(fs, s, checksum), HEADER_WIDTHS) + Zeros(8))
  {
    hide PutWords, HeaderWords, Zeros;
  }

  lemma JoinedIs(s: Sections)
    ensures s.Joined() == s.bitmap + s.inodes + s.directories + s.journal + s.device
  {
  }

  lemma HeaderShape(w: seq<nat>, body: seq<byte>)
    requires |w| == |HEADER_WIDTHS|
    ensures var image := (IMAGE_MAGIC + (PutWords(w, HEADER_WIDTHS) + Zeros(8))) + body;
            && |image| >= 112 && image[..8] == IMAGE_MAGIC && image[112..] == body && Layout(image, 8, w, HEADER_WIDTHS, 0)
            && forall k :: 104 <= k < 112 ==> image[k] == 0
  {
    HeaderWidthsSum();
    PutWordsLength(w, HEADER_WIDTHS);
    ZerosAre(8);
    hide PutWords, Zeros, Layout;
    var words := PutWords(w, HEADER_WIDTHS);
    WordsLayout(IMAGE_MAGIC, w, HEADER_WIDTHS, Zeros(8) + body);
    ImageBody(IMAGE_MAGIC, words, Zeros(8), body);
  }

  lemma SectionDevice(fs: Fs, limits: ImageLimits)
    requires SectionsOf(fs, limits).Ok?
    ensures SectionsOf(fs, limits).value.device == fs.core.device.bytes
  {
    hide InodeSection, DirectorySection, EncodeJournal;
  }

  lemma ZerosAre(n: nat)
    ensures |Zeros(n)| == n && forall k :: 0 <= k < n ==> Zeros(n)[k] == 0
  {
  }

  lemma ImageBody(magic: seq<byte>, words: seq<byte>, zeros: seq<byte>, body: seq<byte>)
    requires |magic| == 8 && |words| == 96 && |zeros| == 8 && forall k :: 0 <= k < 8 ==> zeros[k] == 0
    ensures var image := (magic + (words + zeros)) + body;
            && image == magic + (words + (zeros + body))
            && image[..8] == magic && image[112..] == body && forall k :: 104 <= k < 112 ==> image[k] == 0
  {
  }

  lemma HeaderHolds(data: seq<byte>, fs: Fs, s: Sections, checksum: u32)
    requires Layout(data, 8, HeaderWords(fs, s, checksum), HEADER_WIDTHS, 0)
    ensures var super := fs.core.superblock;
            && Holds(data, 8, 4, 1) && Holds(data, 12, 4, super.blockSize) && Holds(data, 16, 8, super.blockCount)
            && Holds(data, 24, 8, |fs.core.table.inodes| % TWO64) && Holds(data, 32, 8, super.rootInode)
            && Holds(data, 40, 8, super.generation)
    ensures Holds(data, 48, 8, |s.bitmap| % TWO64) && Holds(data, 56, 8, |s.inodes| % TWO64)
            && Holds(data, 64, 8, |s.directories| % TWO64) && Holds(data, 72, 8, |s.journal| % TWO64)
            && Holds(data, 80, 8, |s.device| % TWO64) && Holds(data, 88, 8, fs.core.table.next)
            && Holds(data, 96, 4, checksum) && Holds(data, 100, 4, if fs.dirty then 1 else 0)
  {
    hide Holds;
    var w := HeaderWords(fs, s, checksum);
    assert Layout(data, 12, w, HEADER_WIDTHS, 1);
    assert Layout(data, 16, w, HEADER_WIDTHS, 2);
    assert Layout(data, 24, w, HEADER_WIDTHS, 3);
    assert Layout(data, 32, w, HEADER_WIDTHS, 4);
    assert Layout(data, 40, w, HEADER_WIDTHS, 5);
    assert Layout(data, 48, w, HEADER_WIDTHS, 6);
    assert Layout(data, 56, w, HEADER_WIDTHS, 7);
    assert Layout(data, 64, w, HEADER_WIDTHS, 8);
    assert Layout(data, 72, w, HEADER_WIDTHS, 9);
    assert Layout(data, 80, w, HEADER_WIDTHS, 10);
    assert Layout(data, 88, w, HEADER_WIDTHS, 11);
    assert Layout(data, 96, w, HEADER_WIDTHS, 12);
    assert Layout(data, 100, w, HEADER_WIDTHS, 13);
    assert Layout(data, 104, w, HEADER_WIDTHS, 14);
  }

  // ----- Journal records -----

  function TypeNumber(t: Journals.JournalType): nat {
    if t.BeginRecord? then 1 else if t.AllocateInode? then 2 else if t.FreeInode? then 3 else if t.AllocateBlock? then 4
    else if t.FreeBlock? then 5 else if t.WriteInode? then 6 else if t.WriteDirectory? then 7 else if t.WriteData? then 8
    else if t.RenameEntry? then 9 else if t.CommitRecord? then 10 else if t.RollbackRecord? then 11
    else if t.CheckpointRecord? then 12 else t.other
  }

  /** A journal record: its length, type, flags, numbers and payload length, the payload, and the checksum of
      all but the length. */
  lemma RecordLayout(record: Journals.JournalRecord)
    requires |record.payload| < TWO32 - 48
    ensures var data := PutRecord(record);
            var n := |record.payload|;
            && |data| == 48 + n && Holds(data, 0, 4, 48 + n) && Holds(data, 4, 2, TypeNumber(record.recordType)) && Holds(data, 6, 2, 0)
            && Holds(data, 8, 8, record.sequence) && Holds(data, 16, 8, record.transaction) && Holds(data, 24, 8, record.target)
            && Holds(data, 32, 8, record.generation) && Holds(data, 40, 4, n) && data[44..44 + n] == record.payload
            && Holds(data, 44 + n, 4, Crc32(data[4..44 + n]))
  {
    var n := |record.payload|;
    TypeNumberIs(record.recordType);
    hide Crc32, PutWords, Layout, Holds, LittleEndian, TypeNumber, RecordFields, Journals.JournalType.Code;
    RecordShape(RecordFields(record), record.payload, Crc32(RecordBody(record)));
    RecordHolds(PutRecord(record), record);
  }

  lemma RecordHolds(data: seq<byte>, record: Journals.JournalRecord)
    requires Layout(data, 4, RecordFields(record), RECORD_WIDTHS, 0)
    ensures Holds(data, 4, 2, record.recordType.Code()) && Holds(data, 6, 2, 0)
    ensures Holds(data, 8, 8, record.sequence) && Holds(data, 16, 8, record.transaction) && Holds(data, 24, 8, record.target)
    ensures Holds(data, 32, 8, record.generation) && Holds(data, 40, 4, |record.payload| % TWO32)
  {
    hide Holds, Journals.JournalType.Code;
    var w := RecordFields(record);
    assert Layout(data, 6, w, RECORD_WIDTHS, 1);
    assert Layout(data, 8, w, RECORD_WIDTHS, 2);
    assert Layout(data, 16, w, RECORD_WIDTHS, 3);
    assert Layout(data, 24, w, RECORD_WIDTHS, 4);
    assert Layout(data, 32, w, RECORD_WIDTHS, 5);
    assert Layout(data, 40, w, RECORD_WIDTHS, 6);
    assert Layout(data, 44, w, RECORD_WIDTHS, 7);
  }

  lemma RecordShape(fields: seq<nat>, payload: seq<byte>, checksum: u32)
    requires |fields| == |RECORD_WIDTHS|
    ensures var n := |payload|;
            var body := PutWords(fields, RECORD_WIDTHS) + payload;
            var data := LittleEndian(48 + n, 4) + (body + LittleEndian(checksum, 4));
            && |data| == 48 + n && data[44..44 + n] == payload && data[4..44 + n] == body
            && Holds(data, 0, 4, 48 + n) && Layout(data, 4, fields, RECORD_WIDTHS, 0) && Holds(data, 44 + n, 4, checksum)
  {
    var n := |payload|;
    RecordSize();
    PutWordsLength(fields, RECORD_WIDTHS);
    hide PutWords, Layout, Holds, LittleEndian;
    var head, words, seal := LittleEndian(48 + n, 4), PutWords(fields, RECORD_WIDTHS), LittleEndian(checksum, 4);
    RecordParts(head, words, payload, seal);
    WordHolds([], 48 + n, 4, words + (payload + seal));
    WordsLayout(head, fields, RECORD_WIDTHS, payload + seal);
    WordHolds(head + words + payload, checksum, 4, []);
  }

  lemma TypeNumberIs(t: Journals.JournalType)
    ensures t.Code() == TypeNumber(t)
  {
  }

  lemma RecordParts(head: seq<byte>, words: seq<byte>, payload: seq<byte>, seal: seq<byte>)
    requires |head| == 4 && |words| == 40 && |seal| == 4
    ensures var data := head + ((words + payload) + seal);
            var n := |payload|;
            && |data| == 48 + n && data[44..44 + n] == payload && data[4..44 + n] == words + payload
            && data == [] + (head + (words + (payload + seal))) && data == head + (words + (payload + seal))
            && data == (head + words + payload) + (seal + [])
  {
    var data := head + ((words + payload) + seal);
    assert data == head + (words + payload) + seal;
  }

  // ----- Inode records -----

  function KindNumber(t: InodeType): nat {
    if t.Regular? then 1 else if t.Directory? then 2 else if t.SymbolicLink? then 3 else if t.Unused? then 0 else t.other
  }

  lemma KindNumberIs(t: InodeType)
    ensures t.Code() == KindNumber(t)
  {
  }

  /** An inode record: its first bytes, the fifteen fields, the target of a link behind its length, the extents of
      twenty-one bytes each, the attributes, and the checksum of all before it. */
  lemma InodeLayout(inode: Inode, data: seq<byte>, limits: ImageLimits)
    requires EncodeInode(inode, limits) == Ok(data) && |inode.symlinkTarget| < TWO32
    ensures var n := |inode.symlinkTarget|;
            && |data| >= 92 + n + 21 * |inode.extents| && data[..4] == [66, 70, 73, 78]
            && Holds(data, 4, 8, inode.identifier) && Holds(data, 12, 1, KindNumber(inode.inodeType)) && Holds(data, 13, 2, inode.mode)
            && Holds(data, 15, 4, inode.owner) && Holds(data, 19, 4, inode.group) && Holds(data, 23, 4, inode.linkCount)
            && Holds(data, 27, 8, inode.size) && Holds(data, 35, 8, inode.allocatedBytes) && Holds(data, 43, 8, inode.createdTime)
            && Holds(data, 51, 8, inode.modifiedTime) && Holds(data, 59, 8, inode.changedTime) && Holds(data, 67, 8, inode.generation)
            && Holds(data, 75, 1, if inode.deleted then 1 else 0) && Holds(data, 76, 4, |inode.extents| % TWO32)
            && Holds(data, 80, 4, |inode.attributes| % TWO32) && Holds(data, 84, 4, n) && data[88..88 + n] == inode.symlinkTarget
            && (forall i :: 0 <= i < |inode.extents| ==> HoldsExtent(data, 88 + n + 21 * i, inode.extents[i]))
            && Holds(data, |data| - 4, 4, Crc32(data[..|data| - 4]))
  {
    hide Crc32, PutWords, Layout, Holds, PutExtents, PutAttributes, HoldsExtent, AttributesEncodable, InodeWords, PutText, InodeType.Code, LittleEndian, KindNumber;
    var body := InodeBody(inode);
    TextIs(inode.symlinkTarget);
    InodeShape(InodeWords(inode), inode.symlinkTarget, inode.extents, PutAttributes(inode.attributes), Crc32(body));
    KindNumberIs(inode.inodeType);
    InodeHolds(data, inode);
  }

  lemma TextIs(t: text)
    requires |t| < TWO32
    ensures PutText(t) == LittleEndian(|t|, 4) + t
  {
    hide LittleEndian, Wrap32;
    PathTheorems.SmallWrap(|t|);
  }

  lemma InodeShape(w: seq<nat>, target: text, extents: seq<Extent>, attributes: seq<byte>, checksum: u32)
    requires |w| == |INODE_WIDTHS|
    ensures var n := |target|;
            var body := INODE_MAGIC + (PutWords(w, INODE_WIDTHS) + ((LittleEndian(n, 4) + target) + (PutExtents(extents) + attributes)));
            var data := body + LittleEndian(checksum, 4);
            && |data| >= 92 + n + 21 * |extents| && data[..4] == INODE_MAGIC && data[..|data| - 4] == body
            && Layout(data, 4, w, INODE_WIDTHS, 0) && Holds(data, 84, 4, n) && data[88..88 + n] == target
            && (forall i :: 0 <= i < |extents| ==> HoldsExtent(data, 88 + n + 21 * i, extents[i]))
            && Holds(data, |data| - 4, 4, checksum)
  {
    hide PutWords, Layout, Holds, LittleEndian, PutExtents, HoldsExtent, Sum;
    var n := |target|;
    InodeWidths();
    PutWordsLength(w, INODE_WIDTHS);
    PutExtentsLength(extents);
    var words, length, blocks, seal := PutWords(w, INODE_WIDTHS), LittleEndian(n, 4), PutExtents(extents), LittleEndian(checksum, 4);
    InodeParts(INODE_MAGIC, words, length, target, blocks, attributes, seal);
    WordsLayout(INODE_MAGIC, w, INODE_WIDTHS, ((length + target) + (blocks + attributes)) + seal);
    WordHolds(INODE_MAGIC + words, n, 4, target + (blocks + (attributes + seal)));
    ExtentsHold(INODE_MAGIC + words + length + target, extents, attributes + seal);
    WordHolds(INODE_MAGIC + (words + ((length + target) + (blocks + attributes))), checksum, 4, []);
  }

  lemma InodeParts(magic: seq<byte>, words: seq<byte>, length: seq<byte>, target: seq<byte>, blocks: seq<byte>, attributes: seq<byte>, seal: seq<byte>)
    requires |magic| == 4 && |words| == 80 && |length| == 4 && |seal| == 4
    ensures var body := magic + (words + ((length + target) + (blocks + attributes)));
            var data := body + seal;
            && |data| == 92 + |target| + |blocks| + |attributes|
            && data[..4] == magic && data[..|data| - 4] == body && data[88..88 + |target|] == target
            && data == magic + (words + (((length + target) + (blocks + attributes)) + seal))
            && data == (magic + words) + (length + (target + (blocks + (attributes + seal))))
            && data == (magic + words + length + target) + (blocks + (attributes + seal))
            && data == body + (seal + [])
  {
    var data := magic + (words + ((length + target) + (blocks + attributes))) + seal;
    assert data == (magic + words + length) + (target + (blocks + (attributes + seal)));
  }

  lemma InodeWidths()
    ensures Sum(INODE_WIDTHS) == 80
  {
    assert INODE_WIDTHS == [8, 1, 2, 4, 4] + ([4, 8, 8, 8, 8] + [8, 8, 1, 4, 4]);
    SumConcat([8, 1, 2, 4, 4], [4, 8, 8, 8, 8] + [8, 8, 1, 4, 4]);
    SumConcat([4, 8, 8, 8, 8], [8, 8, 1, 4, 4]);
    SumFive(8, 1, 2, 4, 4);
    SumFive(4, 8, 8, 8, 8);
    SumFive(8, 8, 1, 4, 4);
  }

  lemma InodeHolds(data: seq<byte>, inode: Inode)
    requires Layout(data, 4, InodeWords(inode), INODE_WIDTHS, 0)
    ensures Holds(data, 4, 8, inode.identifier) && Holds(data, 12, 1, inode.inodeType.Code()) && Holds(data, 13, 2, inode.mode)
            && Holds(data, 15, 4, inode.owner) && Holds(data, 19, 4, inode.group) && Holds(data, 23, 4, inode.linkCount)
            && Holds(data, 27, 8, inode.size) && Holds(data, 35, 8, inode.allocatedBytes) && Holds(data, 43, 8, inode.createdTime)
            && Holds(data, 51, 8, inode.modifiedTime) && Holds(data, 59, 8, inode.changedTime) && Holds(data, 67, 8, inode.generation)
            && Holds(data, 75, 1, if inode.deleted then 1 else 0) && Holds(data, 76, 4, |inode.extents| % TWO32)
            && Holds(data, 80, 4, |inode.attributes| % TWO32)
  {
    hide Holds, InodeType.Code;
    var w := InodeWords(inode);
    assert Layout(data, 12, w, INODE_WIDTHS, 1);
    assert Layout(data, 13, w, INODE_WIDTHS, 2);
    assert Layout(data, 15, w, INODE_WIDTHS, 3);
    assert Layout(data, 19, w, INODE_WIDTHS, 4);
    assert Layout(data, 23, w, INODE_WIDTHS, 5);
    assert Layout(data, 27, w, INODE_WIDTHS, 6);
    assert Layout(data, 35, w, INODE_WIDTHS, 7);
    assert Layout(data, 43, w, INODE_WIDTHS, 8);
    assert Layout(data, 51, w, INODE_WIDTHS, 9);
    assert Layout(data, 59, w, INODE_WIDTHS, 10);
    assert Layout(data, 67, w, INODE_WIDTHS, 11);
    assert Layout(data, 75, w, INODE_WIDTHS, 12);
    assert Layout(data, 76, w, INODE_WIDTHS, 13);
    assert Layout(data, 80, w, INODE_WIDTHS, 14);
    assert Layout(data, 84, w, INODE_WIDTHS, 15);
  }

  /** Logical and physical block, count and sparse flag. */
  predicate HoldsExtent(data: seq<byte>, offset: nat, e: Extent) {
    && Holds(data, offset, 8, e.logical) && Holds(data, offset + 8, 8, e.physical) && Holds(data, offset + 16, 4, e.blockCount)
    && Holds(data, offset + 20, 1, if e.sparse then 1 else 0)
  }

  lemma ExtentBytes(head: seq<byte>, e: Extent, rest: seq<byte>)
    ensures |PutExtent(e)| == 21 && HoldsExtent(head + (PutExtent(e) + rest), |head|, e)
  {
    var sparse: nat := if e.sparse then 1 else 0;
    var values: seq<nat> := [e.logical, e.physical, e.blockCount, sparse];
    SumFour(8, 8, 4, 1);
    PutWordsLength(values, EXTENT_WIDTHS);
    WordsLayout(head, values, EXTENT_WIDTHS, rest);
    var data := head + (PutExtent(e) + rest);
    hide Holds, PutWords;
    assert Layout(data, |head| + 8, values, EXTENT_WIDTHS, 1);
    assert Layout(data, |head| + 16, values, EXTENT_WIDTHS, 2);
    assert Layout(data, |head| + 20, values, EXTENT_WIDTHS, 3);
  }

  lemma {:induction false} PutExtentsLength(extents: seq<Extent>)
    ensures |PutExtents(extents)| == 21 * |extents|
  {
    if extents != [] {
      ExtentBytes([], extents[0], []);
      hide PutExtent;
      PutExtentsLength(extents[1..]);
    }
  }

  lemma {:induction false} ExtentsHold(head: seq<byte>, extents: seq<Extent>, rest: seq<byte>)
    ensures forall i :: 0 <= i < |extents| ==> HoldsExtent(head + (PutExtents(extents) + rest), |head| + 21 * i, extents[i])
    decreases |extents|
  {
    hide PutExtent, HoldsExtent;
    if extents != [] {
      var first, others := PutExtent(extents[0]), PutExtents(extents[1..]);
      var data := head + (PutExtents(extents) + rest);
      assert data == head + (first + (others + rest)) && data == (head + first) + (others + rest);
      ExtentBytes(head, extents[0], others + rest);
      ExtentsHold(head + first, extents[1..], rest);
      forall i | 0 <= i < |extents| ensures HoldsExtent(data, |head| + 21 * i, extents[i]) {
        if i > 0 {
          assert extents[1..][i - 1] == extents[i];
        }
      }
    }
  }

  // ----- Directory records -----

  /** A directory entry: record length, inode, type, tombstone flag, name length and name, padded with zeros to its
      record length. */
  lemma EntryLayout(e: DirectoryEntry)
    requires EntryFits(e) && |e.name| < TWO16
    ensures var data := PutEntry(e);
            var n := |e.name|;
            && |data| == StoredLength(e) && Holds(data, 0, 4, StoredLength(e)) && Holds(data, 4, 8, e.inode)
            && Holds(data, 12, 1, KindNumber(e.entryType)) && Holds(data, 13, 1, if e.deleted then 1 else 0) && Holds(data, 14, 2, n)
            && data[16..16 + n] == e.name && forall k :: 16 + n <= k < |data| ==> data[k] == 0
  {
    var n := |e.name|;
    hide PutWords, Layout, Holds, Zeros, StoredLength, InodeType.Code, EntryWords, KindNumber;
    EntryShape(EntryWords(e), e.name, StoredLength(e) - 16 - n);
    KindNumberIs(e.entryType);
    EntryHolds(PutEntry(e), e);
  }

  lemma EntryHolds(data: seq<byte>, e: DirectoryEntry)
    requires Layout(data, 0, EntryWords(e), ENTRY_WIDTHS, 0)
    ensures Holds(data, 0, 4, StoredLength(e)) && Holds(data, 4, 8, e.inode) && Holds(data, 12, 1, e.entryType.Code())
    ensures Holds(data, 13, 1, if e.deleted then 1 else 0) && Holds(data, 14, 2, |e.name| % TWO16)
  {
    hide Holds, StoredLength, InodeType.Code;
    var w := EntryWords(e);
    assert Layout(data, 4, w, ENTRY_WIDTHS, 1);
    assert Layout(data, 12, w, ENTRY_WIDTHS, 2);
    assert Layout(data, 13, w, ENTRY_WIDTHS, 3);
    assert Layout(data, 14, w, ENTRY_WIDTHS, 4);
    assert Layout(data, 16, w, ENTRY_WIDTHS, 5);
  }

  lemma EntryShape(w: seq<nat>, name: text, padding: nat)
    requires |w| == |ENTRY_WIDTHS|
    ensures var data := PutWords(w, ENTRY_WIDTHS) + (name + Zeros(padding));
            var n := |name|;
            && |data| == 16 + n + padding && Layout(data, 0, w, ENTRY_WIDTHS, 0)
            && data[16..16 + n] == name && forall k :: 16 + n <= k < |data| ==> data[k] == 0
  {
    SumFive(4, 8, 1, 1, 2);
    PutWordsLength(w, ENTRY_WIDTHS);
    ZerosAre(padding);
    hide PutWords, Layout, Zeros;
    var words := PutWords(w, ENTRY_WIDTHS);
    WordsLayout([], w, ENTRY_WIDTHS, name + Zeros(padding));
    assert [] + (words + (name + Zeros(padding))) == words + (name + Zeros(padding));
  }

  // ----- The header on reading -----

  /** The word of `width` bytes at `offset`, lowest byte first. */
  function WordAt(data: seq<byte>, offset: nat, width: nat): nat
    requires offset + width <= |data|
    decreases width
  {
    if width == 0 then 0 else data[offset] + 256 * WordAt(data, offset + 1, width - 1)
  }

  lemma {:induction false} WordAtIs(data: seq<byte>, offset: nat, width: nat)
    requires offset + width <= |data|
    ensures Value(data[offset..offset + width]) == WordAt(data, offset, width)
    decreases width
  {
    if width > 0 {
      WordAtIs(data, offset + 1, width - 1);
      assert data[offset..offset + width][1..] == data[offset + 1..offset + 1 + (width - 1)];
    }
  }

  /** From the `i`-th field on the words read are those at their places. */
  predicate ReadsAt(data: seq<byte>, offset: nat, w: seq<nat>, widths: seq<nat>, i: nat)
    requires |w| == |widths|
    decreases |widths| - i
  {
    i >= |widths|
    || (offset + widths[i] <= |data| && w[i] == WordAt(data, offset, widths[i]) && ReadsAt(data, offset + widths[i], w, widths, i + 1))
  }

  lemma {:induction false} WordsReadAt(data: seq<byte>, offset: nat, w: seq<nat>, widths: seq<nat>, i: nat)
    requires |w| == |widths| && i <= |widths| && offset + Sum(widths[i..]) <= |data|
    requires w[i..] == WordsAt(data, offset, widths[i..])
    ensures ReadsAt(data, offset, w, widths, i)
    decreases |widths| - i
  {
    hide FitWidths;
    if i < |widths| {
      assert widths[i..][1..] == widths[i + 1..];
      WordAtIs(data, offset, widths[i]);
      assert w[i..][0] == w[i] && w[i..][1..] == w[i + 1..];
      WordsReadAt(data, offset + widths[i], w, widths, i + 1);
    }
  }

  lemma HeaderReads(data: seq<byte>, w: seq<nat>)
    requires |data| >= 112 && |w| == |HEADER_WIDTHS| && ReadsAt(data, 8, w, HEADER_WIDTHS, 0)
    ensures w[0] == WordAt(data, 8, 4) && w[1] == WordAt(data, 12, 4) && w[2] == WordAt(data, 16, 8) && w[3] == WordAt(data, 24, 8)
    ensures w[4] == WordAt(data, 32, 8) && w[5] == WordAt(data, 40, 8) && w[6] == WordAt(data, 48, 8) && w[7] == WordAt(data, 56, 8)
    ensures w[8] == WordAt(data, 64, 8) && w[9] == WordAt(data, 72, 8) && w[10] == WordAt(data, 80, 8) && w[11] == WordAt(data, 88, 8)
    ensures w[12] == WordAt(data, 96, 4) && w[13] == WordAt(data, 100, 4)
  {
    hide WordAt;
    assert ReadsAt(data, 12, w, HEADER_WIDTHS, 1);
    assert ReadsAt(data, 16, w, HEADER_WIDTHS, 2);
    assert ReadsAt(data, 24, w, HEADER_WIDTHS, 3);
    assert ReadsAt(data, 32, w, HEADER_WIDTHS, 4);
    assert ReadsAt(data, 40, w, HEADER_WIDTHS, 5);
    assert ReadsAt(data, 48, w, HEADER_WIDTHS, 6);
    assert ReadsAt(data, 56, w, HEADER_WIDTHS, 7);
    assert ReadsAt(data, 64, w, HEADER_WIDTHS, 8);
    assert ReadsAt(data, 72, w, HEADER_WIDTHS, 9);
    assert ReadsAt(data, 80, w, HEADER_WIDTHS, 10);
    assert ReadsAt(data, 88, w, HEADER_WIDTHS, 11);
    assert ReadsAt(data, 96, w, HEADER_WIDTHS, 12);
    assert ReadsAt(data, 100, w, HEADER_WIDTHS, 13);
  }

  /** A header is accepted exactly if the image has an allowed length and the right first bytes, version 1, no
      flag but the dirty one, an allowed number of inodes, a bitmap of one bit for each block, a device of
      exactly its blocks, the right checksum if it is asked for, and is not dirty unless that is allowed or a
      replay is asked for. */
  lemma HeaderAccepted(data: seq<byte>, options: MountOptions, limits: ImageLimits)
    ensures CheckHeader(data, options, limits).Ok? <==>
            && 112 <= |data| <= limits.maxImageBytes && data[..8] == [66, 70, 73, 77, 71, 49, 0, 0]
            && WordAt(data, 8, 4) == 1 && WordAt(data, 100, 4) <= 1 && WordAt(data, 24, 8) <= limits.maxInodes
            && WordAt(data, 48, 8) == (WordAt(data, 16, 8) + 7) / 8
            && WordAt(data, 12, 4) * WordAt(data, 16, 8) == WordAt(data, 80, 8)
            && (options.validateChecksums ==> Crc32(data[112..]) == WordAt(data, 96, 4))
            && (WordAt(data, 100, 4) == 1 ==> options.allowDirty || options.replayJournal)
  {
    hide WordAt, Crc32, CeilDivide, ImageWords;
    if 112 <= |data| <= limits.maxImageBytes {
      ImageWordsAre(data);
      EighthsUp(WordAt(data, 16, 8));
    }
  }

  lemma ImageWordsAre(data: seq<byte>)
    requires |data| >= 112
    ensures |ImageWords(data)| == |HEADER_WIDTHS|
    ensures var w := ImageWords(data);
            && w[0] == WordAt(data, 8, 4) && w[1] == WordAt(data, 12, 4) && w[2] == WordAt(data, 16, 8) && w[3] == WordAt(data, 24, 8)
            && w[6] == WordAt(data, 48, 8) && w[10] == WordAt(data, 80, 8) && w[12] == WordAt(data, 96, 4) && w[13] == WordAt(data, 100, 4)
  {
    HeaderWidthsSum();
    hide WordAt, WordsAt, ReadsAt, Sum;
    var w := ImageWords(data);
    assert HEADER_WIDTHS[0..] == HEADER_WIDTHS && w[0..] == w;
    WordsReadAt(data, 8, w, HEADER_WIDTHS, 0);
    HeaderReads(data, w);
  }

  lemma EighthsUp(n: nat)
    ensures CeilDivide(n, 8) == (n + 7) / 8
  {
  }
}
