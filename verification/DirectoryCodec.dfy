/** Directory records: entries padded to their record length, under a checksum. */
module DirectoryCodecs {
  import opened Base
  import opened Bytes
  import opened Crc
  import opened Devices
  import opened Inodes
  import opened Directories
  import opened InodeCodecs

  const DIRECTORY_MAGIC: seq<byte> := [66, 70, 68, 82]

  /** Record length, inode, type, tombstone flag and name length. */
  const ENTRY_WIDTHS: seq<nat> := [4, 8, 1, 1, 2]

  // ----- encode -----

  /** A record length of zero stands for the least one that fits. */
  function StoredLength(e: DirectoryEntry): u32 {
    if e.recordLength != 0 then e.recordLength else AlignedDirectoryLength(|e.name|)
  }

  function EntryWords(e: DirectoryEntry): (words: seq<nat>)
    ensures |words| == |ENTRY_WIDTHS|
  {
    [StoredLength(e), e.inode, e.entryType.Code(), if e.deleted then 1 else 0, |e.name| % TWO16]
  }

  predicate EntryFits(e: DirectoryEntry) {
    16 + |e.name| <= StoredLength(e)
  }

  function PutEntry(e: DirectoryEntry): seq<byte>
    requires EntryFits(e)
  {
    PutWords(EntryWords(e), ENTRY_WIDTHS) + (e.name + Zeros(StoredLength(e) - 16 - |e.name|))
  }

  function PutEntries(entries: Entries, limits: ImageLimits): Result<seq<byte>> {
    if entries == [] then Ok([])
    else
      var _ :- entries[0].Validate(limits);
      if !EntryFits(entries[0]) then Err(InvalidDirectory)
      else
        var rest :- PutEntries(entries[1..], limits);
        Ok(PutEntry(entries[0]) + rest)
  }

  function EncodeDirectory(entries: Entries, limits: ImageLimits): Result<seq<byte>> {
    if |entries| > limits.maxDirectoryEntries then Err(ResourceLimit)
    else
      var records :- PutEntries(entries, limits);
      Ok(Sealed(DIRECTORY_MAGIC + (LittleEndian(Wrap32(|entries|), 4) + records)))
  }

  // ----- decode -----

  predicate EntryFieldsOk(w: seq<nat>, remaining: nat, limits: ImageLimits)
    requires |w| == |ENTRY_WIDTHS|
  {
    && 16 <= w[0] <= remaining + 16 && w[0] % 8 == 0
    && w[4] <= w[0] - 16 && w[4] <= limits.maxNameBytes && w[3] <= 1
  }

  /** The padding is skipped, whatever it holds. */
  function TakeEntry(input: seq<byte>, limits: ImageLimits): Result<(DirectoryEntry, seq<byte>)> {
    WordSizes();
    var (w, rest) :- TakeWords(input, ENTRY_WIDTHS);
    if !EntryFieldsOk(w, |rest|, limits) then Err(InvalidDirectory)
    else
      var (name, padded) :- TakeBytes(rest, w[4]);
      var (_, left) :- TakeBytes(padded, w[0] - 16 - w[4]);
      var e := DirectoryEntry(w[1], InodeType.FromCode(w[2]), name, w[0], w[3] != 0);
      var _ :- e.Validate(limits);
      Ok((e, left))
  }

  function TakeEntries(input: seq<byte>, count: nat, found: Entries, limits: ImageLimits): Result<(Entries, seq<byte>)>
    decreases count
  {
    if count == 0 then Ok((found, input))
    else
      var (e, rest) :- TakeEntry(input, limits);
      TakeEntries(rest, count - 1, found + [e], limits)
  }

  function DecodeDirectoryBody(body: seq<byte>, limits: ImageLimits): Result<Entries> {
    var (count, rest) :- TakeWord(body, 4);
    if count > limits.maxDirectoryEntries then Err(ResourceLimit)
    else
      var (entries, left) :- TakeEntries(rest, count, [], limits);
      if left != [] then Err(InvalidOffset) else Ok(entries)
  }

  function DecodeDirectory(data: seq<byte>, limits: ImageLimits): Result<Entries> {
    if |data| < 12 then Err(Truncated)
    else if data[..4] != DIRECTORY_MAGIC then Err(InvalidSignature)
    else if !SealOk(data) then Err(ChecksumMismatch)
    else DecodeDirectoryBody(data[4..|data| - 4], limits)
  }

  // ----- Round trip -----

  /** What decoding gives back: the stored record length in place of zero. */
  function Measured(e: DirectoryEntry): DirectoryEntry {
    e.(recordLength := StoredLength(e))
  }

  function AllMeasured(entries: Entries): (measured: Entries)
    ensures |measured| == |entries|
    ensures forall i :: 0 <= i < |entries| ==> measured[i] == Measured(entries[i])
  {
    seq(|entries|, i requires 0 <= i < |entries| => Measured(entries[i]))
  }

  lemma ValidEntryFits(e: DirectoryEntry, limits: ImageLimits)
    requires e.Validate(limits).Ok?
    ensures EntryFits(e) && StoredLength(e) % 8 == 0 && |e.name| <= limits.maxNameBytes && |e.name| < TWO16
    ensures Measured(e).Validate(limits).Ok? && e.entryType.Usable()
    ensures FitWidths(EntryWords(e), ENTRY_WIDTHS) && EntryWords(e)[4] == |e.name|
  {
    WordSizes();
  }

  lemma EntryFieldsPut(e: DirectoryEntry, rest: seq<byte>, limits: ImageLimits)
    requires e.Validate(limits).Ok? && EntryFits(e)
    ensures EntryFieldsOk(EntryWords(e), |e.name + Zeros(StoredLength(e) - 16 - |e.name|) + rest|, limits)
  {
    ValidEntryFits(e, limits);
  }

  /** Each field found in its place makes the entry decode. */
  lemma TakesEntryParts(input: seq<byte>, e: DirectoryEntry, w: seq<nat>, named: seq<byte>, padded: seq<byte>, padding: seq<byte>, left: seq<byte>, limits: ImageLimits)
    requires |w| == |ENTRY_WIDTHS| && TakeWords(input, ENTRY_WIDTHS) == Ok((w, named)) && EntryFieldsOk(w, |named|, limits)
    requires TakeBytes(named, w[4]) == Ok((e.name, padded))
    requires TakeBytes(padded, w[0] - 16 - w[4]) == Ok((padding, left))
    requires w[0] == e.recordLength && w[1] == e.inode && w[2] == e.entryType.Code() && w[3] == (if e.deleted then 1 else 0)
    requires InodeType.FromCode(w[2]) == e.entryType && e.Validate(limits).Ok?
    ensures TakeEntry(input, limits) == Ok((e, left))
  {
    hide TakeWords, TakeBytes, DirectoryEntry.Validate, InodeType.FromCode, InodeType.Code;
    WordSizes();
  }

  lemma EntryWordsAre(e: DirectoryEntry, limits: ImageLimits)
    requires e.Validate(limits).Ok?
    ensures var w := EntryWords(e);
            && w[0] == Measured(e).recordLength && w[1] == e.inode && w[2] == e.entryType.Code()
            && w[3] == (if e.deleted then 1 else 0) && w[4] == |e.name|
            && InodeType.FromCode(w[2]) == e.entryType
  {
    ValidEntryFits(e, limits);
  }

  lemma TakePutEntry(e: DirectoryEntry, rest: seq<byte>, limits: ImageLimits)
    requires e.Validate(limits).Ok?
    ensures EntryFits(e) && TakeEntry(PutEntry(e) + rest, limits) == Ok((Measured(e), rest))
  {
    ValidEntryFits(e, limits);
    EntryWordsAre(e, limits);
    EntryFieldsPut(e, rest, limits);
    assert 16 + |e.name| <= StoredLength(e) == Measured(e).recordLength && Measured(e).name == e.name;
    var words := EntryWords(e);
    var padding := Zeros(StoredLength(e) - 16 - |e.name|);
    assert PutEntry(e) + rest == PutWords(words, ENTRY_WIDTHS) + (e.name + padding + rest);
    assert e.name + padding + rest == e.name + (padding + rest);
    hide TakeWords, PutWords, PutEntry, EntryFieldsOk, EntryWords, TakeBytes, DirectoryEntry.Validate, FitWidths, EntryFits, StoredLength, TakeEntry, InodeType.FromCode, InodeType.Code;
    TakePutWords(words, ENTRY_WIDTHS, e.name + padding + rest);
    TakePutBytes(e.name, padding + rest);
    TakePutBytes(padding, rest);
    TakesEntryParts(PutEntry(e) + rest, Measured(e), words, e.name + padding + rest, padding + rest, padding, rest, limits);
  }

  lemma {:induction false} TakePutEntries(entries: Entries, found: Entries, rest: seq<byte>, limits: ImageLimits)
    requires PutEntries(entries, limits).Ok?
    ensures TakeEntries(PutEntries(entries, limits).value + rest, |entries|, found, limits) == Ok((found + AllMeasured(entries), rest))
    decreases |entries|
  {
    hide PutEntry, TakeEntry, Measured, DirectoryEntry.Validate;
    if entries == [] {
      assert [] + rest == rest && found + AllMeasured(entries) == found;
    } else {
      var e, others := entries[0], entries[1..];
      TakePutEntry(e, PutEntries(others, limits).value + rest, limits);
      assert PutEntries(entries, limits).value + rest == PutEntry(e) + (PutEntries(others, limits).value + rest);
      TakePutEntries(others, found + [Measured(e)], rest, limits);
      assert found + [Measured(e)] + AllMeasured(others) == found + AllMeasured(entries);
    }
  }

  lemma DecodesDirectoryBody(entries: Entries, records: seq<byte>, limits: ImageLimits)
    requires |entries| <= limits.maxDirectoryEntries && PutEntries(entries, limits) == Ok(records)
    ensures DecodeDirectoryBody(LittleEndian(Wrap32(|entries|), 4) + records, limits) == Ok(AllMeasured(entries))
  {
    hide TakeWord, TakeEntries, PutEntries, LittleEndian;
    WordSizes();
    assert Wrap32(|entries|) == |entries|;
    hide Beyond, Wrap32;
    TakePutWord(|entries|, 4, records);
    TakePutEntries(entries, [], [], limits);
    assert records + [] == records && [] + AllMeasured(entries) == AllMeasured(entries);
  }

  /** Decoding undoes encoding for every list the encoder accepts; only a record length of zero comes
      back as the least one that fits. */
  lemma DirectoryRoundTrip(entries: Entries, limits: ImageLimits)
    requires EncodeDirectory(entries, limits).Ok?
    ensures DecodeDirectory(EncodeDirectory(entries, limits).value, limits) == Ok(AllMeasured(entries))
  {
    hide PutEntries, DecodeDirectoryBody, Sealed, SealOk, LittleEndian, Wrap32;
    var records := PutEntries(entries, limits).value;
    DecodesDirectoryBody(entries, records, limits);
    var counted := LittleEndian(Wrap32(|entries|), 4) + records;
    var body := DIRECTORY_MAGIC + counted;
    var data := Sealed(body);
    SealedParts(body);
    assert body[..4] == DIRECTORY_MAGIC && body[4..] == counted;
    assert data[..4] == data[..|data| - 4][..4];
    assert data[4..|data| - 4] == data[..|data| - 4][4..];
  }

  // ----- The codec as it runs -----

  method WriteEntry(output: seq<byte>, e: DirectoryEntry) returns (grown: seq<byte>)
    requires EntryFits(e)
    ensures grown == output + PutEntry(e)
  {
    hide PutWords, EntryWords;
    grown := WriteWords(output, EntryWords(e), ENTRY_WIDTHS);
    grown := grown + e.name;
    grown := grown + Zeros(StoredLength(e) - 16 - |e.name|);
  }

  method WriteDirectoryRecord(entries: Entries, limits: ImageLimits) returns (r: Result<seq<byte>>)
    ensures r == EncodeDirectory(entries, limits)
  {
    hide PutEntry, EntryFits, DirectoryEntry.Validate;
    if |entries| > limits.maxDirectoryEntries {
      return Err(ResourceLimit);
    }
    var head := AppendWord(DIRECTORY_MAGIC, Wrap32(|entries|), 4);
    var output := head;
    var index := 0;
    assert entries[0..] == entries;
    while index < |entries|
      invariant 0 <= index <= |entries|
      invariant PutEntries(entries, limits).Ok? <==> PutEntries(entries[index..], limits).Ok?
      invariant PutEntries(entries, limits).Ok? ==>
                  head + PutEntries(entries, limits).value == output + PutEntries(entries[index..], limits).value
      invariant PutEntries(entries, limits).Err? ==> PutEntries(entries, limits) == PutEntries(entries[index..], limits)
    {
      var e := entries[index];
      assert entries[index..][1..] == entries[index + 1..];
      var valid := e.Validate(limits);
      if valid.Err? {
        return Err(valid.code);
      }
      if !EntryFits(e) {
        return Err(InvalidDirectory);
      }
      ghost var rest := PutEntries(entries[index + 1..], limits);
      assert rest.Ok? ==> output + (PutEntry(e) + rest.value) == output + PutEntry(e) + rest.value;
      output := WriteEntry(output, e);
      index := index + 1;
    }
    assert output + [] == output;
    assert output == DIRECTORY_MAGIC + (LittleEndian(Wrap32(|entries|), 4) + PutEntries(entries, limits).value);
    var checksum := ComputeCrc32(output);
    output := AppendWord(output, checksum, 4);
    return Ok(output);
  }

  method ReadEntry(reader: CheckedReader, limits: ImageLimits) returns (r: Result<DirectoryEntry>)
    requires reader.Valid()
    modifies reader
    ensures reader.Valid()
    ensures r.Ok? <==> TakeEntry(old(reader.Rest()), limits).Ok?
    ensures r.Ok? ==> TakeEntry(old(reader.Rest()), limits) == Ok((r.value, reader.Rest()))
    ensures r.Err? ==> TakeEntry(old(reader.Rest()), limits) == Err(r.code)
  {
    hide TakeWords, TakeBytes, EntryFieldsOk;
    WordSizes();
    var w := reader.ReadWords(ENTRY_WIDTHS);
    if w.Err? {
      return Err(w.code);
    }
    if !EntryFieldsOk(w.value, reader.Remaining(), limits) {
      return Err(InvalidDirectory);
    }
    EntryFieldsMean(w.value, reader.Remaining(), limits);
    // Both lengths were just checked against what is left, so neither read can fail.
    var name := reader.ReadBytes(w.value[4]);
    var _ := reader.Skip(w.value[0] - 16 - w.value[4]);
    var e := DirectoryEntry(w.value[1], InodeType.FromCode(w.value[2]), name.value, w.value[0], w.value[3] != 0);
    var valid := e.Validate(limits);
    if valid.Err? {
      return Err(valid.code);
    }
    return Ok(e);
  }

  lemma EntryFieldsMean(w: seq<nat>, remaining: nat, limits: ImageLimits)
    requires |w| == |ENTRY_WIDTHS| && EntryFieldsOk(w, remaining, limits)
    ensures 16 + w[4] <= w[0] <= remaining + 16
  {
  }

  method ReadDirectoryRecord(data: seq<byte>, limits: ImageLimits) returns (r: Result<Entries>)
    ensures r == DecodeDirectory(data, limits)
  {
    hide DecodeDirectoryBody;
    if |data| < 12 {
      return Err(Truncated);
    }
    if data[..4] != DIRECTORY_MAGIC {
      return Err(InvalidSignature);
    }
    var actual := ComputeCrc32(data[..|data| - 4]);
    if actual != Value(data[|data| - 4..]) {
      return Err(ChecksumMismatch);
    }
    r := ReadDirectoryBody(data[4..|data| - 4], limits);
  }

  method ReadDirectoryBody(body: seq<byte>, limits: ImageLimits) returns (r: Result<Entries>)
    ensures r == DecodeDirectoryBody(body, limits)
  {
    hide TakeWord, TakeEntry;
    var reader := new CheckedReader(body);
    var count := reader.ReadWord(4);
    if count.Err? {
      return Err(count.code);
    }
    if count.value > limits.maxDirectoryEntries {
      return Err(ResourceLimit);
    }
    ghost var start := reader.Rest();
    var entries: Entries := [];
    var index := 0;
    while index < count.value
      invariant reader.Valid() && 0 <= index <= count.value
      invariant TakeEntries(reader.Rest(), count.value - index, entries, limits) == TakeEntries(start, count.value, [], limits)
    {
      var e := ReadEntry(reader, limits);
      if e.Err? {
        return Err(e.code);
      }
      entries := entries + [e.value];
      index := index + 1;
    }
    if reader.Remaining() != 0 {
      return Err(InvalidOffset);
    }
    return Ok(entries);
  }
}
