/** The journal section: numbered records, each with its own length and checksum. */
module JournalCodecs {
  import opened Base
  import opened Bytes
  import opened Crc
  import opened InodeCodecs
  import opened Journals

  const JOURNAL_MAGIC: seq<byte> := [66, 70, 74, 78, 76, 49, 0, 0]

  /** Type, flags, sequence, transaction, target, generation and payload length. */
  const RECORD_WIDTHS: seq<nat> := [2, 2, 8, 8, 8, 8, 4]

  // ----- encode -----

  function RecordFields(record: JournalRecord): (fields: seq<nat>)
    ensures |fields| == |RECORD_WIDTHS|
  {
    [record.recordType.Code(), 0, record.sequence, record.transaction, record.target, record.generation, Wrap32(|record.payload|)]
  }

  function RecordBody(record: JournalRecord): seq<byte> {
    PutWords(RecordFields(record), RECORD_WIDTHS) + record.payload
  }

  function PutRecord(record: JournalRecord): seq<byte> {
    LittleEndian(Wrap32(48 + |record.payload|), 4) + Sealed(RecordBody(record))
  }

  function PutRecords(records: seq<JournalRecord>, previous: u64, limits: ImageLimits): Result<seq<byte>> {
    if records == [] then Ok([])
    else if records[0].sequence <= previous || |records[0].payload| > limits.maxFileBytes then Err(JournalError)
    else
      var rest :- PutRecords(records[1..], records[0].sequence, limits);
      Ok(PutRecord(records[0]) + rest)
  }

  function JournalHead(count: nat): seq<byte> {
    JOURNAL_MAGIC + LittleEndian(1, 4) + LittleEndian(Wrap32(count), 4)
  }

  function EncodeJournal(records: seq<JournalRecord>, limits: ImageLimits): Result<seq<byte>> {
    if |records| > limits.maxJournalRecords then Err(ResourceLimit)
    else
      var body :- PutRecords(records, 0, limits);
      Ok(JournalHead(|records|) + body)
  }

  // ----- decode -----

  /** The fixed fields of the record that starts the input. */
  function RecordWords(input: seq<byte>): (w: seq<nat>)
    requires |input| >= 44
    ensures FitWidths(w, RECORD_WIDTHS)
  {
    RecordSize();
    WordsAt(input, 4, RECORD_WIDTHS)
  }

  lemma RecordSize()
    ensures Sum(RECORD_WIDTHS) == 40
  {
    assert RECORD_WIDTHS == [2, 2, 8, 8, 8] + [8, 4];
    SumConcat([2, 2, 8, 8, 8], [8, 4]);
    SumFive(2, 2, 8, 8, 8);
    assert [8, 4][1..] == [4] && [4][1..] == [];
  }

  predicate RecordFieldsOk(w: seq<nat>, previous: u64)
    requires |w| == |RECORD_WIDTHS|
  {
    w[1] == 0 && 1 <= w[0] <= 12 && w[2] > previous
  }

  /** A length below 48 makes the 32-bit difference wrap to more than any payload may be. */
  predicate PayloadLengthOk(length: nat, payload: nat, limits: ImageLimits) {
    payload == Wrap32(length - 48) && payload <= limits.maxFileBytes
  }

  lemma NoWrap(length: nat, payload: nat, limits: ImageLimits)
    requires 44 <= length < TWO32 && PayloadLengthOk(length, payload, limits)
    ensures length == 48 + payload
  {
  }

  function TakeRecord(input: seq<byte>, previous: u64, limits: ImageLimits): Result<(JournalRecord, seq<byte>)> {
    if |input| < 44 then Err(Truncated)
    else
      WordSizes();
      ValueBound(input[..4]);
      var length := Value(input[..4]);
      if length < 44 || length > |input| then Err(InvalidOffset)
      else
        var w := RecordWords(input);
        if !PayloadLengthOk(length, w[6], limits) then Err(JournalError)
        else
          NoWrap(length, w[6], limits);
          ValueBound(input[length - 4..length]);
          var stored := Value(input[length - 4..length]);
          if stored != Crc32(input[4..length - 4]) then Err(ChecksumMismatch)
          else if !RecordFieldsOk(w, previous) then Err(JournalError)
          else
            var record := JournalRecord(JournalType.FromCode(w[0]), w[2], w[3], w[4], w[5], input[44..44 + w[6]], stored);
            Ok((record, input[length..]))
  }

  function TakeRecords(input: seq<byte>, count: nat, previous: u64, found: seq<JournalRecord>, limits: ImageLimits)
    : Result<seq<JournalRecord>>
    decreases count
  {
    if count == 0 then (if input != [] then Err(InvalidOffset) else Ok(found))
    else
      var (record, rest) :- TakeRecord(input, previous, limits);
      TakeRecords(rest, count - 1, record.sequence, found + [record], limits)
  }

  function DecodeJournal(data: seq<byte>, limits: ImageLimits): Result<seq<JournalRecord>> {
    if |data| < 16 then Err(Truncated)
    else if |data| > limits.maxImageBytes || data[..8] != JOURNAL_MAGIC || Value(data[8..12]) != 1 then
      Err(InvalidSignature)
    else if Value(data[12..16]) > limits.maxJournalRecords then Err(ResourceLimit)
    else TakeRecords(data[16..], Value(data[12..16]), 0, [], limits)
  }

  // ----- Round trip -----

  /** What decoding gives back: the checksum of the stored record filled in. */
  function Stamped(record: JournalRecord): JournalRecord {
    record.(checksum := Crc32(RecordBody(record)))
  }

  function AllStamped(records: seq<JournalRecord>): (stamped: seq<JournalRecord>)
    ensures |stamped| == |records|
    ensures forall i :: 0 <= i < |records| ==> stamped[i] == Stamped(records[i])
  {
    seq(|records|, i requires 0 <= i < |records| => Stamped(records[i]))
  }

  lemma RecordBodyLength(record: JournalRecord)
    ensures |PutWords(RecordFields(record), RECORD_WIDTHS)| == 40
    ensures |RecordBody(record)| == 40 + |record.payload| && |PutRecord(record)| == 48 + |record.payload|
  {
    RecordSize();
    PutWordsLength(RecordFields(record), RECORD_WIDTHS);
    hide PutWords, RecordFields;
  }

  lemma FieldsFit(record: JournalRecord)
    ensures FitWidths(RecordFields(record), RECORD_WIDTHS)
  {
    WordSizes();
  }

  lemma RecordWordsPut(record: JournalRecord, head: seq<byte>, rest: seq<byte>)
    requires |head| == 4
    ensures var input := head + (PutWords(RecordFields(record), RECORD_WIDTHS) + rest);
            |input| >= 44 && RecordWords(input) == RecordFields(record)
  {
    FieldsFit(record);
    RecordSize();
    WordsAtPut(head, RecordFields(record), RECORD_WIDTHS, rest);
    hide RecordFields, PutWords, WordsAt;
  }

  predicate Recordable(record: JournalRecord, previous: u64, limits: ImageLimits) {
    record.sequence > previous && |record.payload| <= limits.maxFileBytes && !record.recordType.OtherRecord?
  }

  /** Where the parts of a written record are in an input that starts with it. */
  lemma RecordParts(record: JournalRecord, rest: seq<byte>, limits: ImageLimits)
    requires |record.payload| <= limits.maxFileBytes
    ensures var input := PutRecord(record) + rest;
            var length := 48 + |record.payload|;
            && |input| >= length && Value(input[..4]) == length
            && RecordWords(input) == RecordFields(record)
            && input[4..length - 4] == RecordBody(record)
            && Value(input[length - 4..length]) == Crc32(RecordBody(record))
            && input[44..44 + |record.payload|] == record.payload
            && input[length..] == rest
  {
    hide PutWords, RecordFields, LittleEndian, RecordWords, Wrap32, Value, Crc32;
    var body := RecordBody(record);
    var length := 48 + |record.payload|;
    RecordBodyLength(record);
    var head := LittleEndian(length, 4);
    var crc := LittleEndian(Crc32(body), 4);
    SmallWord(length);
    SmallWord(Crc32(body));
    var fields := PutWords(RecordFields(record), RECORD_WIDTHS);
    RecordWordsPut(record, head, record.payload + crc + rest);
    Fourfold(head, fields, record.payload, crc, rest);
  }

  lemma SmallWord(n: u32)
    ensures Wrap32(n) == n && Value(LittleEndian(n, 4)) == n
  {
    WordSizes();
    WordRoundTrip(n, 4);
  }

  /** Taking a concatenation apart again. */
  lemma Fourfold(head: seq<byte>, fields: seq<byte>, payload: seq<byte>, crc: seq<byte>, rest: seq<byte>)
    requires |head| == 4 && |fields| == 40 && |crc| == 4
    ensures var input := head + (fields + payload + crc) + rest;
            var length := 48 + |payload|;
            && input == head + (fields + (payload + crc + rest))
            && |input| >= length && input[..4] == head && input[4..length - 4] == fields + payload
            && input[length - 4..length] == crc && input[44..44 + |payload|] == payload && input[length..] == rest
  {
    var input := head + (fields + payload + crc) + rest;
    assert input == head + (fields + (payload + crc + rest));
    assert input == head + (fields + payload) + crc + rest;
  }

  lemma FromCodeRestores(t: JournalType)
    requires !t.OtherRecord?
    ensures 1 <= t.Code() <= 12 && JournalType.FromCode(t.Code()) == t
  {
  }

  lemma FieldsMean(record: JournalRecord, previous: u64, limits: ImageLimits)
    requires Recordable(record, previous, limits)
    ensures var w := RecordFields(record);
            && RecordFieldsOk(w, previous) && w[6] == |record.payload|
            && PayloadLengthOk(48 + |record.payload|, w[6], limits)
            && w[2] == record.sequence && w[3] == record.transaction && w[4] == record.target && w[5] == record.generation
            && w[0] == record.recordType.Code()
  {
    FromCodeRestores(record.recordType);
  }

  lemma TakePutRecord(record: JournalRecord, previous: u64, rest: seq<byte>, limits: ImageLimits)
    requires Recordable(record, previous, limits)
    ensures TakeRecord(PutRecord(record) + rest, previous, limits) == Ok((Stamped(record), rest))
  {
    RecordParts(record, rest, limits);
    FieldsMean(record, previous, limits);
    FromCodeRestores(record.recordType);
    hide PutRecord, RecordWords, RecordFields, RecordBody, RecordFieldsOk, PayloadLengthOk, JournalType.FromCode, JournalType.Code;
  }

  predicate AllRecordable(records: seq<JournalRecord>, previous: u64, limits: ImageLimits) {
    records == [] || (Recordable(records[0], previous, limits) && AllRecordable(records[1..], records[0].sequence, limits))
  }

  lemma {:induction false} TakePutRecords(records: seq<JournalRecord>, previous: u64, found: seq<JournalRecord>, limits: ImageLimits)
    requires AllRecordable(records, previous, limits)
    ensures PutRecords(records, previous, limits).Ok?
    ensures TakeRecords(PutRecords(records, previous, limits).value, |records|, previous, found, limits) == Ok(found + AllStamped(records))
    decreases |records|
  {
    hide PutRecord, TakeRecord, Stamped, AllStamped, Recordable;
    StampedSplit(records);
    if records == [] {
      assert found + AllStamped(records) == found;
    } else {
      var record, others := records[0], records[1..];
      RecordableMeans(record, previous, limits);
      TakePutRecords(others, record.sequence, found + [Stamped(record)], limits);
      TakePutRecord(record, previous, PutRecords(others, record.sequence, limits).value, limits);
      assert found + [Stamped(record)] + AllStamped(others) == found + AllStamped(records);
    }
  }

  lemma RecordableMeans(record: JournalRecord, previous: u64, limits: ImageLimits)
    requires Recordable(record, previous, limits)
    ensures record.sequence > previous && |record.payload| <= limits.maxFileBytes
    ensures Stamped(record).sequence == record.sequence
  {
  }

  lemma StampedSplit(records: seq<JournalRecord>)
    ensures AllStamped(records) == if records == [] then [] else [Stamped(records[0])] + AllStamped(records[1..])
  {
    hide Stamped;
  }

  lemma HeadParts(count: nat, body: seq<byte>)
    requires count < TWO32
    ensures var data := JournalHead(count) + body;
            && |data| == 16 + |body| && data[..8] == JOURNAL_MAGIC && Value(data[8..12]) == 1
            && Value(data[12..16]) == count && data[16..] == body
  {
    WordSizes();
    WordRoundTrip(1, 4);
    WordRoundTrip(count, 4);
    var data := JournalHead(count) + body;
    assert data[8..12] == LittleEndian(1, 4) && data[12..16] == LittleEndian(count, 4);
  }

  /** Decoding undoes encoding for every journal with increasing sequences and legal types, up to the
      checksum field, which comes back filled in. */
  lemma JournalRoundTrip(records: seq<JournalRecord>, limits: ImageLimits)
    requires AllRecordable(records, 0, limits) && |records| <= limits.maxJournalRecords
    ensures EncodeJournal(records, limits).Ok?
    ensures |EncodeJournal(records, limits).value| <= limits.maxImageBytes ==>
              DecodeJournal(EncodeJournal(records, limits).value, limits) == Ok(AllStamped(records))
  {
    hide PutRecords, TakeRecords, JournalHead;
    TakePutRecords(records, 0, [], limits);
    var body := PutRecords(records, 0, limits).value;
    HeadParts(|records|, body);
    assert [] + AllStamped(records) == AllStamped(records);
  }

  /** A journal reached by a run is one the codec takes. */
  lemma {:induction false} AscendingRecordable(records: seq<JournalRecord>, previous: u64, limits: ImageLimits)
    requires Ascending(records, previous)
    requires forall i :: 0 <= i < |records| ==> |records[i].payload| <= limits.maxFileBytes && !records[i].recordType.OtherRecord?
    ensures AllRecordable(records, previous, limits)
    decreases |records|
  {
    hide Ascending;
    if records != [] {
      AscendingRest(records, previous);
      AscendingRecordable(records[1..], records[0].sequence, limits);
    }
  }

  // ----- The codec as it runs -----

  method WriteRecord(output: seq<byte>, record: JournalRecord) returns (grown: seq<byte>)
    ensures grown == output + PutRecord(record)
  {
    hide PutWords, RecordFields, LittleEndian, Crc32, Wrap32;
    grown := AppendWord(output, Wrap32(48 + |record.payload|), 4);
    ghost var head := grown;
    var start := |grown|;
    grown := WriteWords(grown, RecordFields(record), RECORD_WIDTHS);
    grown := grown + record.payload;
    assert grown == head + RecordBody(record);
    assert grown[start..] == RecordBody(record);
    var checksum := ComputeCrc32(grown[start..]);
    grown := AppendWord(grown, checksum, 4);
  }

  method WriteJournal(records: seq<JournalRecord>, limits: ImageLimits) returns (r: Result<seq<byte>>)
    ensures r == EncodeJournal(records, limits)
  {
    hide PutRecord;
    if |records| > limits.maxJournalRecords {
      return Err(ResourceLimit);
    }
    var head := AppendWord(JOURNAL_MAGIC, 1, 4);
    head := AppendWord(head, Wrap32(|records|), 4);
    var output := head;
    var previous: u64, index := 0, 0;
    assert records[0..] == records;
    while index < |records|
      invariant 0 <= index <= |records|
      invariant PutRecords(records, 0, limits).Ok? <==> PutRecords(records[index..], previous, limits).Ok?
      invariant PutRecords(records, 0, limits).Ok? ==>
                  head + PutRecords(records, 0, limits).value == output + PutRecords(records[index..], previous, limits).value
      invariant PutRecords(records, 0, limits).Err? ==> PutRecords(records, 0, limits) == PutRecords(records[index..], previous, limits)
    {
      var record := records[index];
      assert records[index..][1..] == records[index + 1..];
      if record.sequence <= previous || |record.payload| > limits.maxFileBytes {
        return Err(JournalError);
      }
      ghost var rest := PutRecords(records[index + 1..], record.sequence, limits);
      assert rest.Ok? ==> output + (PutRecord(record) + rest.value) == output + PutRecord(record) + rest.value;
      output := WriteRecord(output, record);
      previous := record.sequence;
      index := index + 1;
    }
    assert output + [] == output;
    return Ok(output);
  }

  method ReadFields(data: seq<byte>, position: nat) returns (w: seq<nat>)
    requires position + 44 <= |data|
    ensures w == RecordWords(data[position..])
  {
    RecordSize();
    WordsAtShifted(data, position, 4, RECORD_WIDTHS);
    hide WordsAt;
    w := ReadWordsAt(data, position + 4, RECORD_WIDTHS);
  }

  method ReadRecord(data: seq<byte>, position: nat, previous: u64, limits: ImageLimits) returns (r: Result<JournalRecord>)
    requires position <= |data|
    ensures r.Ok? <==> TakeRecord(data[position..], previous, limits).Ok?
    ensures r.Ok? ==>
              && position + 48 + |r.value.payload| <= |data|
              && TakeRecord(data[position..], previous, limits) == Ok((r.value, data[position + 48 + |r.value.payload|..]))
    ensures r.Err? ==> TakeRecord(data[position..], previous, limits) == Err(r.code)
  {
    hide RecordWords, JournalType.FromCode, Value, Crc32;
    if |data| - position < 44 {
      return Err(Truncated);
    }
    SliceOf(data, position, 0, 4);
    var length := Value(data[position..position + 4]);
    if length < 44 || length > |data| - position {
      return Err(InvalidOffset);
    }
    var w := ReadFields(data, position);
    if !PayloadLengthOk(length, w[6], limits) {
      return Err(JournalError);
    }
    WordSizes();
    assert length < TWO32 by { ValueBound(data[position..position + 4]); }
    NoWrap(length, w[6], limits);
    hide PayloadLengthOk;
    SliceOf(data, position, length - 4, length);
    SliceOf(data, position, 4, length - 4);
    var stored := Value(data[position + length - 4..position + length]);
    var actual := ComputeCrc32(data[position + 4..position + length - 4]);
    if stored != actual {
      return Err(ChecksumMismatch);
    }
    if !RecordFieldsOk(w, previous) {
      return Err(JournalError);
    }
    SliceOf(data, position, 44, 44 + w[6]);
    assert data[position..][length..] == data[position + length..];
    return Ok(JournalRecord(JournalType.FromCode(w[0]), w[2], w[3], w[4], w[5], data[position + 44..position + 44 + w[6]], stored));
  }

  method ReadJournal(data: seq<byte>, limits: ImageLimits) returns (r: Result<seq<JournalRecord>>)
    ensures r == DecodeJournal(data, limits)
  {
    hide TakeRecord, Value;
    if |data| < 16 {
      return Err(Truncated);
    }
    if |data| > limits.maxImageBytes || data[..8] != JOURNAL_MAGIC || Value(data[8..12]) != 1 {
      return Err(InvalidSignature);
    }
    var count := Value(data[12..16]);
    if count > limits.maxJournalRecords {
      return Err(ResourceLimit);
    }
    var position := 16;
    var previous: u64 := 0;
    var records: seq<JournalRecord> := [];
    var index := 0;
    while index < count
      invariant 0 <= index <= count && 0 <= position <= |data|
      invariant TakeRecords(data[position..], count - index, previous, records, limits) == TakeRecords(data[16..], count, 0, [], limits)
    {
      var record := ReadRecord(data, position, previous, limits);
      if record.Err? {
        return Err(record.code);
      }
      records := records + [record.value];
      previous := record.value.sequence;
      position := position + 48 + |record.value.payload|;
      index := index + 1;
    }
    if position != |data| {
      return Err(InvalidOffset);
    }
    return Ok(records);
  }
}
