/** Inode records: fixed fields, symbolic link target, extents and attributes under a checksum. */
module InodeCodecs {
  import opened Base
  import opened Bytes
  import opened Crc
  import opened Extents
  import opened Inodes

  const INODE_MAGIC: seq<byte> := [66, 70, 73, 78]

  /** Widths of the fixed fields, from the identifier to the two counts. */
  const INODE_WIDTHS: seq<nat> := [8, 1, 2, 4, 4, 4, 8, 8, 8, 8, 8, 8, 1, 4, 4]

  const EXTENT_WIDTHS: seq<nat> := [8, 8, 4, 1]

  // ----- encode -----

  function InodeWords(inode: Inode): (words: seq<nat>)
    ensures |words| == |INODE_WIDTHS|
  {
    [inode.identifier, inode.inodeType.Code(), inode.mode, inode.owner, inode.group, inode.linkCount, inode.size,
     inode.allocatedBytes, inode.createdTime, inode.modifiedTime, inode.changedTime, inode.generation,
     if inode.deleted then 1 else 0, Wrap32(|inode.extents|), Wrap32(|inode.attributes|)]
  }

  function PutExtent(e: Extent): seq<byte> {
    PutWords([e.logical, e.physical, e.blockCount, if e.sparse then 1 else 0], EXTENT_WIDTHS)
  }

  function PutExtents(extents: seq<Extent>): seq<byte> {
    if extents == [] then [] else PutExtent(extents[0]) + PutExtents(extents[1..])
  }

  function PutAttribute(a: ExtendedAttribute): seq<byte> {
    PutText(a.name) + PutText(a.value)
  }

  function PutAttributes(attributes: seq<ExtendedAttribute>): seq<byte> {
    if attributes == [] then [] else PutAttribute(attributes[0]) + PutAttributes(attributes[1..])
  }

  /** Names and total size within limits; nothing is asked about repeated or empty names. */
  predicate AttributesEncodable(attributes: seq<ExtendedAttribute>, used: nat, limits: ImageLimits) {
    attributes == []
    || (|attributes[0].name| <= limits.maxNameBytes
        && used + |attributes[0].name| + |attributes[0].value| <= limits.maxAttributeBytes
        && AttributesEncodable(attributes[1..], used + |attributes[0].name| + |attributes[0].value|, limits))
  }

  function InodeBody(inode: Inode): seq<byte> {
    INODE_MAGIC + (PutWords(InodeWords(inode), INODE_WIDTHS)
                   + (PutText(inode.symlinkTarget) + (PutExtents(inode.extents) + PutAttributes(inode.attributes))))
  }

  function Sealed(body: seq<byte>): seq<byte> {
    body + LittleEndian(Crc32(body), 4)
  }

  predicate InodeEncodable(inode: Inode, limits: ImageLimits) {
    && inode.identifier != 0
    && |inode.extents| <= limits.maxExtents
    && |inode.symlinkTarget| <= limits.maxPathBytes
    && |inode.attributes| <= limits.maxDirectoryEntries
    && AttributesEncodable(inode.attributes, 0, limits)
  }

  function EncodeInode(inode: Inode, limits: ImageLimits): Result<seq<byte>> {
    if InodeEncodable(inode, limits) then Ok(Sealed(InodeBody(inode))) else Err(ResourceLimit)
  }

  // ----- decode -----

  function TakeExtent(input: seq<byte>): Result<(Extent, seq<byte>)> {
    WordSizes();
    var (w, rest) :- TakeWords(input, EXTENT_WIDTHS);
    if w[3] > 1 then Err(InvalidExtent) else Ok((Extent(w[0], w[1], w[2], w[3] != 0), rest))
  }

  function TakeExtents(input: seq<byte>, count: nat, found: seq<Extent>): Result<(seq<Extent>, seq<byte>)>
    decreases count
  {
    if count == 0 then Ok((found, input))
    else
      var (e, rest) :- TakeExtent(input);
      TakeExtents(rest, count - 1, found + [e])
  }

  /** One attribute, within what is left of the byte budget. */
  function TakeAttribute(input: seq<byte>, used: nat, limits: ImageLimits): Result<(ExtendedAttribute, seq<byte>)> {
    var (name, valued) :- TakeText(input, limits.maxNameBytes);
    var (length, rest) :- TakeWord(valued, 4);
    if length > limits.maxAttributeBytes then Err(ResourceLimit)
    else
      var (value, left) :- TakeBytes(rest, length);
      if used + |name| + |value| > limits.maxAttributeBytes then Err(ResourceLimit)
      else Ok((ExtendedAttribute(name, value), left))
  }

  function TakeAttributes(input: seq<byte>, count: nat, used: nat, found: seq<ExtendedAttribute>, limits: ImageLimits)
    : Result<(seq<ExtendedAttribute>, seq<byte>)>
    decreases count
  {
    if count == 0 then Ok((found, input))
    else
      var (a, rest) :- TakeAttribute(input, used, limits);
      TakeAttributes(rest, count - 1, used + |a.name| + |a.value|, found + [a], limits)
  }

  predicate InodeFieldsOk(w: seq<nat>, limits: ImageLimits)
    requires |w| == |INODE_WIDTHS|
  {
    1 <= w[1] <= 3 && w[12] <= 1 && w[13] <= limits.maxExtents && w[14] <= limits.maxDirectoryEntries
  }

  function BuildInode(w: seq<nat>, symlink: text, extents: seq<Extent>, attributes: seq<ExtendedAttribute>): Inode
    requires FitWidths(w, INODE_WIDTHS)
  {
    WordSizes();
    Inode(w[0], InodeType.FromCode(w[1]), w[2], w[3], w[4], w[5], w[6], w[7], w[8], w[9], w[10], w[11],
          extents, symlink, attributes, w[12] != 0)
  }

  /** A checksum over everything before the last four bytes. */
  predicate SealOk(data: seq<byte>)
    requires |data| >= 4
  {
    Crc32(data[..|data| - 4]) == Value(data[|data| - 4..])
  }

  function DecodeInode(data: seq<byte>, superblock: Superblock, limits: ImageLimits): Result<Inode>
    requires superblock.blockSize > 0
  {
    if |data| < 91 then Err(Truncated)
    else if |data| > limits.maxFileBytes || data[..4] != INODE_MAGIC then Err(InvalidSignature)
    else if !SealOk(data) then Err(ChecksumMismatch)
    else DecodeInodeBody(data[4..|data| - 4], superblock, limits)
  }

  function DecodeInodeBody(body: seq<byte>, superblock: Superblock, limits: ImageLimits): Result<Inode>
    requires superblock.blockSize > 0
  {
    var (w, afterFields) :- TakeWords(body, INODE_WIDTHS);
    var (symlink, afterText) :- TakeText(afterFields, limits.maxPathBytes);
    if !InodeFieldsOk(w, limits) then Err(ResourceLimit)
    else
      var (extents, afterExtents) :- TakeExtents(afterText, w[13], []);
      var (attributes, rest) :- TakeAttributes(afterExtents, w[14], 0, [], limits);
      if rest != [] then Err(InvalidOffset)
      else
        var inode := BuildInode(w, symlink, extents, attributes);
        var _ :- inode.Validate(superblock, limits);
        Ok(inode)
  }

  // ----- Round trip -----

  lemma TakePutExtent(e: Extent, rest: seq<byte>)
    ensures TakeExtent(PutExtent(e) + rest) == Ok((e, rest))
  {
    WordSizes();
    TakePutWords([e.logical, e.physical, e.blockCount, if e.sparse then 1 else 0], EXTENT_WIDTHS, rest);
    hide TakeWords, PutWords;
  }

  lemma {:induction false} TakePutExtents(extents: seq<Extent>, found: seq<Extent>, rest: seq<byte>)
    ensures TakeExtents(PutExtents(extents) + rest, |extents|, found) == Ok((found + extents, rest))
    decreases |extents|
  {
    hide PutExtent, TakeExtent;
    if extents == [] {
      assert PutExtents(extents) + rest == rest && found + extents == found;
    } else {
      var e, others := extents[0], extents[1..];
      assert PutExtents(extents) + rest == PutExtent(e) + (PutExtents(others) + rest);
      TakePutExtent(e, PutExtents(others) + rest);
      TakePutExtents(others, found + [e], rest);
      assert found + [e] + others == found + extents;
    }
  }

  lemma TakePutAttribute(a: ExtendedAttribute, used: nat, limits: ImageLimits, rest: seq<byte>)
    requires |a.name| <= limits.maxNameBytes && used + |a.name| + |a.value| <= limits.maxAttributeBytes
    ensures TakeAttribute(PutAttribute(a) + rest, used, limits) == Ok((a, rest))
  {
    WordSizes();
    assert Wrap32(|a.value|) == |a.value|;
    assert PutAttribute(a) + rest == PutText(a.name) + (LittleEndian(|a.value|, 4) + (a.value + rest));
    hide TakeText, PutText, TakeWord, LittleEndian;
    TakePutText(a.name, limits.maxNameBytes, LittleEndian(|a.value|, 4) + (a.value + rest));
    TakePutWord(|a.value|, 4, a.value + rest);
    TakePutBytes(a.value, rest);
  }

  lemma {:induction false} TakePutAttributes(attributes: seq<ExtendedAttribute>, used: nat, found: seq<ExtendedAttribute>, limits: ImageLimits, rest: seq<byte>)
    requires AttributesEncodable(attributes, used, limits)
    ensures TakeAttributes(PutAttributes(attributes) + rest, |attributes|, used, found, limits) == Ok((found + attributes, rest))
    decreases |attributes|
  {
    hide PutAttribute, TakeAttribute;
    if attributes == [] {
      assert PutAttributes(attributes) + rest == rest && found + attributes == found;
    } else {
      var a, others := attributes[0], attributes[1..];
      assert PutAttributes(attributes) + rest == PutAttribute(a) + (PutAttributes(others) + rest);
      TakePutAttribute(a, used, limits, PutAttributes(others) + rest);
      TakePutAttributes(others, used + |a.name| + |a.value|, found + [a], limits, rest);
      assert found + [a] + others == found + attributes;
    }
  }

  lemma InodeWordsFit(inode: Inode, limits: ImageLimits)
    requires InodeEncodable(inode, limits)
    ensures FitWidths(InodeWords(inode), INODE_WIDTHS)
    ensures InodeWords(inode)[13] == |inode.extents| && InodeWords(inode)[14] == |inode.attributes|
  {
    WordSizes();
  }

  lemma BuildRestores(inode: Inode, limits: ImageLimits)
    requires InodeEncodable(inode, limits) && inode.inodeType.Usable()
    ensures FitWidths(InodeWords(inode), INODE_WIDTHS) && InodeFieldsOk(InodeWords(inode), limits)
    ensures BuildInode(InodeWords(inode), inode.symlinkTarget, inode.extents, inode.attributes) == inode
  {
    InodeWordsFit(inode, limits);
  }

  lemma SealedParts(body: seq<byte>)
    ensures var data := Sealed(body);
            |data| == |body| + 4 && data[..|data| - 4] == body && SealOk(data)
  {
    WordSizes();
    var data := Sealed(body);
    assert data[..|data| - 4] == body;
    assert data[|data| - 4..] == LittleEndian(Crc32(body), 4);
    WordRoundTrip(Crc32(body), 4);
  }

  lemma InodeBodyLength(inode: Inode)
    ensures |InodeBody(inode)| >= 88
    ensures InodeBody(inode)[..4] == INODE_MAGIC
    ensures InodeBody(inode)[4..] == PutWords(InodeWords(inode), INODE_WIDTHS)
            + (PutText(inode.symlinkTarget) + (PutExtents(inode.extents) + PutAttributes(inode.attributes)))
  {
    InodeWidthsSum();
    PutWordsLength(InodeWords(inode), INODE_WIDTHS);
    hide PutWords;
  }

  lemma InodeWidthsSum()
    ensures Sum(INODE_WIDTHS) == 80
  {
    assert INODE_WIDTHS == [8, 1, 2, 4, 4] + ([4, 8, 8, 8, 8] + [8, 8, 1, 4, 4]);
    SumConcat([8, 1, 2, 4, 4], [4, 8, 8, 8, 8] + [8, 8, 1, 4, 4]);
    SumConcat([4, 8, 8, 8, 8], [8, 8, 1, 4, 4]);
    SumFive(8, 1, 2, 4, 4);
    SumFive(4, 8, 8, 8, 8);
    SumFive(8, 8, 1, 4, 4);
  }

  /** Each field found in its place makes the record decode. */
  lemma DecodesParts(body: seq<byte>, inode: Inode, afterFields: seq<byte>, afterText: seq<byte>, afterExtents: seq<byte>, superblock: Superblock, limits: ImageLimits)
    requires superblock.blockSize > 0 && inode.Validate(superblock, limits).Ok?
    requires TakeWords(body, INODE_WIDTHS) == Ok((InodeWords(inode), afterFields))
    requires TakeText(afterFields, limits.maxPathBytes) == Ok((inode.symlinkTarget, afterText))
    requires TakeExtents(afterText, |inode.extents|, []) == Ok((inode.extents, afterExtents))
    requires TakeAttributes(afterExtents, |inode.attributes|, 0, [], limits) == Ok((inode.attributes, []))
    requires FitWidths(InodeWords(inode), INODE_WIDTHS) && InodeFieldsOk(InodeWords(inode), limits)
    requires InodeWords(inode)[13] == |inode.extents| && InodeWords(inode)[14] == |inode.attributes|
    requires BuildInode(InodeWords(inode), inode.symlinkTarget, inode.extents, inode.attributes) == inode
    ensures DecodeInodeBody(body, superblock, limits) == Ok(inode)
  {
    hide BuildInode, Inode.Validate, FitWidths, TakeWords, TakeText, TakeExtents, TakeAttributes, InodeFieldsOk, InodeWords;
  }

  lemma DecodesBody(inode: Inode, superblock: Superblock, limits: ImageLimits)
    requires superblock.blockSize > 0 && InodeEncodable(inode, limits) && inode.Validate(superblock, limits).Ok?
    ensures |InodeBody(inode)| >= 4
    ensures DecodeInodeBody(InodeBody(inode)[4..], superblock, limits) == Ok(inode)
  {
    hide InodeBody, InodeWords, BuildInode, InodeFieldsOk, Inode.Validate, FitWidths, TakeWords, TakeText, TakeExtents, TakeAttributes;
    hide PutWords, PutText, PutExtents, PutAttributes, AttributesEncodable, DecodeInodeBody;
    UsableType(inode, superblock, limits);
    BuildRestores(inode, limits);
    InodeWordsFit(inode, limits);
    InodeBodyLength(inode);
    var attributes := PutAttributes(inode.attributes);
    var extents := PutExtents(inode.extents);
    var afterFields := PutText(inode.symlinkTarget) + (extents + attributes);
    TakePutWords(InodeWords(inode), INODE_WIDTHS, afterFields);
    TakePutText(inode.symlinkTarget, limits.maxPathBytes, extents + attributes);
    TakePutExtents(inode.extents, [], attributes);
    TakePutAttributes(inode.attributes, 0, [], limits, []);
    assert attributes + [] == attributes;
    assert [] + inode.extents == inode.extents && [] + inode.attributes == inode.attributes;
    DecodesParts(InodeBody(inode)[4..], inode, afterFields, extents + attributes, attributes, superblock, limits);
  }

  lemma UsableType(inode: Inode, superblock: Superblock, limits: ImageLimits)
    requires superblock.blockSize > 0 && inode.Validate(superblock, limits).Ok?
    ensures inode.inodeType.Usable()
  {
  }

  /** Decoding undoes encoding, for every inode that validates and whose record is not too long. */
  lemma InodeRoundTrip(inode: Inode, superblock: Superblock, limits: ImageLimits)
    requires superblock.blockSize > 0 && inode.Validate(superblock, limits).Ok?
    requires EncodeInode(inode, limits).Ok? && |EncodeInode(inode, limits).value| <= limits.maxFileBytes
    ensures DecodeInode(EncodeInode(inode, limits).value, superblock, limits) == Ok(inode)
  {
    hide InodeBody, Sealed, SealOk, DecodeInodeBody, Inode.Validate, PutWords, PutText, PutExtents, PutAttributes, InodeWords;
    assert InodeEncodable(inode, limits);
    hide InodeEncodable;
    var body := InodeBody(inode);
    var data := Sealed(body);
    InodeBodyLength(inode);
    SealedParts(body);
    DecodesBody(inode, superblock, limits);
    assert data[..4] == data[..|data| - 4][..4] == body[..4];
    assert data[4..|data| - 4] == data[..|data| - 4][4..] == body[4..];
  }

  // ----- The codec as it runs -----

  method WriteWords(output: seq<byte>, values: seq<nat>, widths: seq<nat>) returns (grown: seq<byte>)
    requires |values| == |widths|
    ensures grown == output + PutWords(values, widths)
  {
    grown := output;
    var index := 0;
    assert values[0..] == values && widths[0..] == widths;
    while index < |widths|
      invariant 0 <= index <= |widths|
      invariant grown + PutWords(values[index..], widths[index..]) == output + PutWords(values, widths)
    {
      assert values[index..][1..] == values[index + 1..] && widths[index..][1..] == widths[index + 1..];
      ghost var rest := PutWords(values[index + 1..], widths[index + 1..]);
      assert grown + (LittleEndian(values[index], widths[index]) + rest) == grown + LittleEndian(values[index], widths[index]) + rest;
      grown := AppendWord(grown, values[index], widths[index]);
      index := index + 1;
    }
    assert grown + [] == grown;
  }

  method WriteText(output: seq<byte>, t: text) returns (grown: seq<byte>)
    ensures grown == output + PutText(t)
  {
    grown := AppendWord(output, Wrap32(|t|), 4);
    grown := grown + t;
  }

  method WriteExtents(output: seq<byte>, extents: seq<Extent>) returns (grown: seq<byte>)
    ensures grown == output + PutExtents(extents)
  {
    hide PutExtent;
    grown := output;
    var index := 0;
    assert extents[0..] == extents;
    while index < |extents|
      invariant 0 <= index <= |extents|
      invariant grown + PutExtents(extents[index..]) == output + PutExtents(extents)
    {
      var e := extents[index];
      assert extents[index..][1..] == extents[index + 1..];
      ghost var rest := PutExtents(extents[index + 1..]);
      assert grown + (PutExtent(e) + rest) == grown + PutExtent(e) + rest;
      grown := WriteExtent(grown, e);
      index := index + 1;
    }
    assert grown + [] == grown;
  }

  method WriteExtent(output: seq<byte>, e: Extent) returns (grown: seq<byte>)
    ensures grown == output + PutExtent(e)
  {
    grown := WriteWords(output, [e.logical, e.physical, e.blockCount, if e.sparse then 1 else 0], EXTENT_WIDTHS);
  }

  method WriteAttributes(output: seq<byte>, attributes: seq<ExtendedAttribute>, limits: ImageLimits) returns (r: Result<seq<byte>>)
    ensures r == if AttributesEncodable(attributes, 0, limits) then Ok(output + PutAttributes(attributes)) else Err(ResourceLimit)
  {
    var grown := output;
    var used, index := 0, 0;
    assert attributes[0..] == attributes;
    hide PutText;
    while index < |attributes|
      invariant 0 <= index <= |attributes|
      invariant used >= 0
      invariant AttributesEncodable(attributes[index..], used, limits) == AttributesEncodable(attributes, 0, limits)
      invariant grown + PutAttributes(attributes[index..]) == output + PutAttributes(attributes)
    {
      var a := attributes[index];
      assert attributes[index..][1..] == attributes[index + 1..];
      if |a.name| > limits.maxNameBytes || used + |a.name| + |a.value| > limits.maxAttributeBytes {
        return Err(ResourceLimit);
      }
      used := used + |a.name| + |a.value|;
      ghost var rest := PutAttributes(attributes[index + 1..]);
      assert grown + (PutText(a.name) + PutText(a.value) + rest) == grown + PutText(a.name) + PutText(a.value) + rest;
      grown := WriteText(grown, a.name);
      grown := WriteText(grown, a.value);
      index := index + 1;
    }
    assert grown + [] == grown;
    return Ok(grown);
  }

  method WriteInodeRecord(inode: Inode, limits: ImageLimits) returns (r: Result<seq<byte>>)
    ensures r == EncodeInode(inode, limits)
  {
    hide PutText, PutWords, PutExtents, PutAttributes, InodeWords, AttributesEncodable;
    if inode.identifier == 0 || |inode.extents| > limits.maxExtents || |inode.symlinkTarget| > limits.maxPathBytes
       || |inode.attributes| > limits.maxDirectoryEntries {
      return Err(ResourceLimit);
    }
    var output := WriteWords(INODE_MAGIC, InodeWords(inode), INODE_WIDTHS);
    output := WriteText(output, inode.symlinkTarget);
    output := WriteExtents(output, inode.extents);
    var body := WriteAttributes(output, inode.attributes, limits);
    if body.Err? {
      return body;
    }
    assert body.value == InodeBody(inode);
    var checksum := ComputeCrc32(body.value);
    output := AppendWord(body.value, checksum, 4);
    return Ok(output);
  }

  method ReadExtents(reader: CheckedReader, count: nat) returns (r: Result<seq<Extent>>)
    requires reader.Valid()
    modifies reader
    ensures reader.Valid()
    ensures r.Ok? <==> TakeExtents(old(reader.Rest()), count, []).Ok?
    ensures r.Ok? ==> TakeExtents(old(reader.Rest()), count, []) == Ok((r.value, reader.Rest()))
    ensures r.Err? ==> TakeExtents(old(reader.Rest()), count, []) == Err(r.code)
  {
    hide TakeWords;
    WordSizes();
    var extents: seq<Extent> := [];
    var index := 0;
    while index < count
      invariant reader.Valid() && 0 <= index <= count
      invariant TakeExtents(reader.Rest(), count - index, extents) == TakeExtents(old(reader.Rest()), count, [])
    {
      var w := reader.ReadWords(EXTENT_WIDTHS);
      if w.Err? {
        return Err(w.code);
      }
      if w.value[3] > 1 {
        return Err(InvalidExtent);
      }
      extents := extents + [Extent(w.value[0], w.value[1], w.value[2], w.value[3] != 0)];
      index := index + 1;
    }
    return Ok(extents);
  }

  method ReadAttribute(reader: CheckedReader, used: nat, limits: ImageLimits) returns (r: Result<ExtendedAttribute>)
    requires reader.Valid()
    modifies reader
    ensures reader.Valid()
    ensures r.Ok? <==> TakeAttribute(old(reader.Rest()), used, limits).Ok?
    ensures r.Ok? ==> TakeAttribute(old(reader.Rest()), used, limits) == Ok((r.value, reader.Rest()))
    ensures r.Err? ==> TakeAttribute(old(reader.Rest()), used, limits) == Err(r.code)
  {
    hide TakeText, TakeWord;
    var name := reader.ReadText(limits.maxNameBytes);
    if name.Err? {
      return Err(name.code);
    }
    var length := reader.ReadWord(4);
    if length.Err? {
      return Err(length.code);
    }
    if length.value > limits.maxAttributeBytes {
      return Err(ResourceLimit);
    }
    var value := reader.ReadBytes(length.value);
    if value.Err? {
      return Err(value.code);
    }
    if used + |name.value| + |value.value| > limits.maxAttributeBytes {
      return Err(ResourceLimit);
    }
    return Ok(ExtendedAttribute(name.value, value.value));
  }

  method ReadAttributes(reader: CheckedReader, count: nat, limits: ImageLimits) returns (r: Result<seq<ExtendedAttribute>>)
    requires reader.Valid()
    modifies reader
    ensures reader.Valid()
    ensures r.Ok? <==> TakeAttributes(old(reader.Rest()), count, 0, [], limits).Ok?
    ensures r.Ok? ==> TakeAttributes(old(reader.Rest()), count, 0, [], limits) == Ok((r.value, reader.Rest()))
    ensures r.Err? ==> TakeAttributes(old(reader.Rest()), count, 0, [], limits) == Err(r.code)
  {
    hide TakeAttribute;
    var attributes: seq<ExtendedAttribute> := [];
    var used, index := 0, 0;
    while index < count
      invariant reader.Valid() && 0 <= index <= count
      invariant used >= 0
      invariant TakeAttributes(reader.Rest(), count - index, used, attributes, limits) ==
                TakeAttributes(old(reader.Rest()), count, 0, [], limits)
    {
      var a := ReadAttribute(reader, used, limits);
      if a.Err? {
        return Err(a.code);
      }
      used := used + |a.value.name| + |a.value.value|;
      attributes := attributes + [a.value];
      index := index + 1;
    }
    return Ok(attributes);
  }

  method ReadInodeRecord(data: seq<byte>, superblock: Superblock, limits: ImageLimits) returns (r: Result<Inode>)
    requires superblock.blockSize > 0
    ensures r == DecodeInode(data, superblock, limits)
  {
    hide DecodeInodeBody;
    if |data| < 91 {
      return Err(Truncated);
    }
    if |data| > limits.maxFileBytes || data[..4] != INODE_MAGIC {
      return Err(InvalidSignature);
    }
    var actual := ComputeCrc32(data[..|data| - 4]);
    if actual != Value(data[|data| - 4..]) {
      return Err(ChecksumMismatch);
    }
    r := ReadInodeBody(data[4..|data| - 4], superblock, limits);
  }

  method ReadInodeBody(body: seq<byte>, superblock: Superblock, limits: ImageLimits) returns (r: Result<Inode>)
    requires superblock.blockSize > 0
    ensures r == DecodeInodeBody(body, superblock, limits)
  {
    hide TakeWords, TakeText, TakeExtents, TakeAttributes, Inode.Validate, BuildInode;
    var reader := new CheckedReader(body);
    var w := reader.ReadWords(INODE_WIDTHS);
    if w.Err? {
      return Err(w.code);
    }
    var symlink := reader.ReadText(limits.maxPathBytes);
    if symlink.Err? {
      return Err(symlink.code);
    }
    if !InodeFieldsOk(w.value, limits) {
      return Err(ResourceLimit);
    }
    var extents := ReadExtents(reader, w.value[13]);
    if extents.Err? {
      return Err(extents.code);
    }
    var attributes := ReadAttributes(reader, w.value[14], limits);
    if attributes.Err? {
      return Err(attributes.code);
    }
    if reader.Remaining() != 0 {
      return Err(InvalidOffset);
    }
    var inode := BuildInode(w.value, symlink.value, extents.value, attributes.value);
    var valid := ValidateInode(inode, superblock, limits);
    if valid.Err? {
      return Err(valid.code);
    }
    return Ok(inode);
  }
}
