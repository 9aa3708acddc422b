/** Little-endian words, and a reader that never runs past its input. */
module Bytes {
  import opened Base

  // ----- Words -----

  /** `append16`, `append32`, `append64`: the low bytes first. */
  function LittleEndian(value: nat, width: nat): (bytes: seq<byte>)
    ensures |bytes| == width
  {
    if width == 0 then [] else [value % 256] + LittleEndian(value / 256, width - 1)
  }

  /** `le16`, `le32`, `le64`. */
  function Value(bytes: seq<byte>): nat {
    if bytes == [] then 0 else bytes[0] + 256 * Value(bytes[1..])
  }

  /** The first number that does not fit `width` bytes. */
  function Beyond(width: nat): (n: nat)
    ensures n > 0
  {
    if width == 0 then 1 else 256 * Beyond(width - 1)
  }

  lemma WordSizes()
    ensures Beyond(1) == 256 && Beyond(2) == TWO16 && Beyond(4) == TWO32 && Beyond(8) == TWO64
  {
    assert Beyond(3) == 256 * Beyond(2) && Beyond(5) == 256 * Beyond(4);
    assert Beyond(6) == 256 * Beyond(5) && Beyond(7) == 256 * Beyond(6);
  }

  lemma {:induction false} ValueBound(bytes: seq<byte>)
    ensures Value(bytes) < Beyond(|bytes|)
  {
    if bytes != [] {
      ValueBound(bytes[1..]);
    }
  }

  lemma {:induction false} WordRoundTrip(value: nat, width: nat)
    requires value < Beyond(width)
    ensures Value(LittleEndian(value, width)) == value
  {
    if width > 0 {
      assert value == 256 * (value / 256) + value % 256;
      WordRoundTrip(value / 256, width - 1);
      assert LittleEndian(value, width)[1..] == LittleEndian(value / 256, width - 1);
    }
  }

  lemma {:induction false} BytesRoundTrip(bytes: seq<byte>)
    ensures LittleEndian(Value(bytes), |bytes|) == bytes
  {
    if bytes != [] {
      var low, high := bytes[0], Value(bytes[1..]);
      DivModUnique(high, low, 256);
      BytesRoundTrip(bytes[1..]);
    }
  }

  method AppendWord(output: seq<byte>, value: nat, width: nat) returns (grown: seq<byte>)
    ensures grown == output + LittleEndian(value, width)
  {
    grown := output;
    var rest, left := value, width;
    while left > 0
      invariant 0 <= left <= width
      invariant grown + LittleEndian(rest, left) == output + LittleEndian(value, width)
    {
      assert grown + LittleEndian(rest, left) == (grown + [rest % 256]) + LittleEndian(rest / 256, left - 1);
      grown := grown + [rest % 256];
      rest, left := rest / 256, left - 1;
    }
  }

  // ----- Reading: a value and what is left of the input -----

  function TakeWord(input: seq<byte>, width: nat): (r: Result<(nat, seq<byte>)>)
    ensures r.Ok? <==> |input| >= width
    ensures r.Ok? ==> r.value.0 < Beyond(width) && |r.value.1| == |input| - width
  {
    if |input| < width then Err(Truncated)
    else
      ValueBound(input[..width]);
      Ok((Value(input[..width]), input[width..]))
  }

  function TakeBytes(input: seq<byte>, count: nat): (r: Result<(seq<byte>, seq<byte>)>)
    ensures r.Ok? <==> |input| >= count
    ensures r.Ok? ==> input == r.value.0 + r.value.1 && |r.value.0| == count
  {
    if |input| < count then Err(Truncated) else Ok((input[..count], input[count..]))
  }

  /** A length-prefixed string. */
  function TakeText(input: seq<byte>, maximum: nat): (r: Result<(text, seq<byte>)>)
    ensures r.Ok? ==> |r.value.0| <= maximum
  {
    var (length, rest) :- TakeWord(input, 4);
    if length > maximum || length > |rest| then Err(ResourceLimit) else Ok((rest[..length], rest[length..]))
  }

  function TakeWords(input: seq<byte>, widths: seq<nat>): (r: Result<(seq<nat>, seq<byte>)>)
    ensures r.Ok? ==> |r.value.0| == |widths| && forall i :: 0 <= i < |widths| ==> r.value.0[i] < Beyond(widths[i])
    decreases |widths|
  {
    if widths == [] then Ok(([], input))
    else
      var (first, rest) :- TakeWord(input, widths[0]);
      var (others, left) :- TakeWords(rest, widths[1..]);
      Ok(([first] + others, left))
  }

  // ----- Writing -----

  function PutText(t: text): seq<byte> {
    LittleEndian(Wrap32(|t|), 4) + t
  }

  function PutWords(values: seq<nat>, widths: seq<nat>): seq<byte>
    requires |values| == |widths|
    decreases |widths|
  {
    if widths == [] then [] else LittleEndian(values[0], widths[0]) + PutWords(values[1..], widths[1..])
  }

  lemma {:induction false} PutWordsLength(values: seq<nat>, widths: seq<nat>)
    requires |values| == |widths|
    ensures |PutWords(values, widths)| == Sum(widths)
    decreases |widths|
  {
    if widths != [] {
      PutWordsLength(values[1..], widths[1..]);
    }
  }

  function Sum(widths: seq<nat>): nat {
    if widths == [] then 0 else widths[0] + Sum(widths[1..])
  }

  lemma {:induction false} SumConcat(left: seq<nat>, right: seq<nat>)
    ensures Sum(left + right) == Sum(left) + Sum(right)
  {
    if left == [] {
      assert left + right == right;
    } else {
      assert (left + right)[1..] == left[1..] + right;
      SumConcat(left[1..], right);
    }
  }

  lemma SumFive(a: nat, b: nat, c: nat, d: nat, e: nat)
    ensures Sum([a, b, c, d, e]) == a + b + c + d + e
  {
    assert [a, b, c, d, e][1..] == [b, c, d, e] && [b, c, d, e][1..] == [c, d, e];
    assert [c, d, e][1..] == [d, e] && [d, e][1..] == [e] && [e][1..] == [];
    assert Sum([e]) == e && Sum([d, e]) == d + e && Sum([c, d, e]) == c + d + e;
  }

  lemma SumFour(a: nat, b: nat, c: nat, d: nat)
    ensures Sum([a, b, c, d]) == a + b + c + d
  {
    assert [a, b, c, d][1..] == [b, c, d] && [b, c, d][1..] == [c, d] && [c, d][1..] == [d] && [d][1..] == [];
    assert Sum([d]) == d && Sum([c, d]) == c + d && Sum([b, c, d]) == b + c + d;
  }

  /** Fields at fixed places, one after the other from `offset` on. */
  function WordsAt(input: seq<byte>, offset: nat, widths: seq<nat>): (w: seq<nat>)
    requires offset + Sum(widths) <= |input|
    ensures FitWidths(w, widths)
    decreases |widths|
  {
    if widths == [] then []
    else
      ValueBound(input[offset..offset + widths[0]]);
      [Value(input[offset..offset + widths[0]])] + WordsAt(input, offset + widths[0], widths[1..])
  }

  lemma FirstField(head: seq<byte>, first: seq<byte>, tail: seq<byte>, rest: seq<byte>)
    ensures head + ((first + tail) + rest) == (head + first) + (tail + rest)
    ensures (head + ((first + tail) + rest))[|head|..|head| + |first|] == first
  {
  }

  lemma {:induction false} WordsAtPut(head: seq<byte>, values: seq<nat>, widths: seq<nat>, rest: seq<byte>)
    requires FitWidths(values, widths)
    ensures |head| + Sum(widths) <= |head + (PutWords(values, widths) + rest)|
    ensures WordsAt(head + (PutWords(values, widths) + rest), |head|, widths) == values
    decreases |widths|
  {
    PutWordsLength(values, widths);
    if widths != [] {
      var first, tail := LittleEndian(values[0], widths[0]), PutWords(values[1..], widths[1..]);
      WordRoundTrip(values[0], widths[0]);
      assert PutWords(values, widths) == first + tail;
      hide LittleEndian, Value, Beyond, PutWords;
      FirstField(head, first, tail, rest);
      WordsAtPut(head + first, values[1..], widths[1..], rest);
    }
  }

  /** Places counted from the start of a part of the input, or from the start of the whole. */
  lemma {:induction false} WordsAtShifted(data: seq<byte>, position: nat, offset: nat, widths: seq<nat>)
    requires position + offset + Sum(widths) <= |data|
    ensures WordsAt(data[position..], offset, widths) == WordsAt(data, position + offset, widths)
    decreases |widths|
  {
    hide Value, Beyond, FitWidths;
    if widths != [] {
      SliceOf(data, position, offset, offset + widths[0]);
      WordsAtShifted(data, position, offset + widths[0], widths[1..]);
    }
  }

  lemma SliceOf(data: seq<byte>, position: nat, a: nat, b: nat)
    requires a <= b && position + b <= |data|
    ensures data[position..][a..b] == data[position + a..position + b]
  {
  }

  method ReadWordsAt(data: seq<byte>, offset: nat, widths: seq<nat>) returns (w: seq<nat>)
    requires offset + Sum(widths) <= |data|
    ensures w == WordsAt(data, offset, widths)
    decreases |widths|
  {
    hide Value, FitWidths;
    if widths == [] {
      return [];
    }
    var first := Value(data[offset..offset + widths[0]]);
    var others := ReadWordsAt(data, offset + widths[0], widths[1..]);
    return [first] + others;
  }

  // ----- Each reader undoes its writer -----

  lemma TakePutWord(value: nat, width: nat, rest: seq<byte>)
    requires value < Beyond(width)
    ensures TakeWord(LittleEndian(value, width) + rest, width) == Ok((value, rest))
  {
    var input := LittleEndian(value, width) + rest;
    assert input[..width] == LittleEndian(value, width) && input[width..] == rest;
    WordRoundTrip(value, width);
  }

  lemma TakePutBytes(bytes: seq<byte>, rest: seq<byte>)
    ensures TakeBytes(bytes + rest, |bytes|) == Ok((bytes, rest))
  {
  }

  lemma TakePutText(t: text, maximum: nat, rest: seq<byte>)
    requires |t| <= maximum && |t| < TWO32
    ensures TakeText(PutText(t) + rest, maximum) == Ok((t, rest))
  {
    WordSizes();
    TakePutWord(|t|, 4, t + rest);
    assert PutText(t) + rest == LittleEndian(|t|, 4) + (t + rest);
  }

  ghost predicate FitWidths(values: seq<nat>, widths: seq<nat>) {
    |values| == |widths| && forall i :: 0 <= i < |values| ==> values[i] < Beyond(widths[i])
  }

  lemma {:induction false} TakePutWords(values: seq<nat>, widths: seq<nat>, rest: seq<byte>)
    requires FitWidths(values, widths)
    ensures TakeWords(PutWords(values, widths) + rest, widths) == Ok((values, rest))
    decreases |widths|
  {
    if widths == [] {
      assert PutWords(values, widths) + rest == rest;
    } else {
      var tail := PutWords(values[1..], widths[1..]) + rest;
      assert PutWords(values, widths) + rest == LittleEndian(values[0], widths[0]) + tail;
      TakePutWord(values[0], widths[0], tail);
      TakePutWords(values[1..], widths[1..], rest);
      assert [values[0]] + values[1..] == values;
    }
  }

  // ----- CheckedReader -----

  class CheckedReader {
    const data: seq<byte>
    var position: nat

    ghost predicate Valid()
      reads this
    {
      position <= |data|
    }

    /** What is still to be read. */
    function Rest(): seq<byte>
      requires Valid()
      reads this
    {
      data[position..]
    }

    constructor (data: seq<byte>)
      ensures this.data == data && position == 0 && Valid() && Rest() == data
    {
      this.data := data;
      position := 0;
    }

    function Remaining(): nat
      requires Valid()
      reads this
      ensures Remaining() == |Rest()|
    {
      |data| - position
    }

    method ReadWord(width: nat) returns (r: Result<nat>)
      requires Valid()
      modifies this
      ensures Valid()
      ensures r.Ok? <==> TakeWord(old(Rest()), width).Ok?
      ensures r.Ok? ==> TakeWord(old(Rest()), width) == Ok((r.value, Rest())) && position == old(position) + width
      ensures r.Err? ==> TakeWord(old(Rest()), width) == Err(r.code) && position == old(position)
    {
      if Remaining() < width {
        return Err(Truncated);
      }
      ghost var before := Rest();
      assert data[position..position + width] == before[..width];
      var value := Value(data[position..position + width]);
      position := position + width;
      assert Rest() == before[width..];
      return Ok(value);
    }

    method ReadBytes(count: nat) returns (r: Result<seq<byte>>)
      requires Valid()
      modifies this
      ensures Valid()
      ensures r.Ok? <==> TakeBytes(old(Rest()), count).Ok?
      ensures r.Ok? ==> TakeBytes(old(Rest()), count) == Ok((r.value, Rest())) && position == old(position) + count
      ensures r.Err? ==> TakeBytes(old(Rest()), count) == Err(r.code) && position == old(position)
    {
      if count > Remaining() {
        return Err(Truncated);
      }
      ghost var before := Rest();
      var bytes := data[position..position + count];
      assert bytes == before[..count];
      position := position + count;
      assert Rest() == before[count..];
      return Ok(bytes);
    }

    method Skip(count: nat) returns (r: Result<()>)
      requires Valid()
      modifies this
      ensures Valid()
      ensures r.Ok? <==> TakeBytes(old(Rest()), count).Ok?
      ensures r.Ok? ==> Rest() == TakeBytes(old(Rest()), count).value.1 && position == old(position) + count
      ensures r.Err? ==> r.code == Truncated && position == old(position)
    {
      if count > Remaining() {
        return Err(Truncated);
      }
      ghost var before := Rest();
      position := position + count;
      assert Rest() == before[count..];
      return Ok(());
    }

    /** A failure leaves the reader after the length it read. */
    method ReadText(maximum: nat) returns (r: Result<text>)
      requires Valid()
      modifies this
      ensures Valid()
      ensures r.Ok? <==> TakeText(old(Rest()), maximum).Ok?
      ensures r.Ok? ==> TakeText(old(Rest()), maximum) == Ok((r.value, Rest()))
      ensures r.Err? ==> TakeText(old(Rest()), maximum) == Err(r.code)
    {
      var length := ReadWord(4);
      if length.Err? {
        return Err(length.code);
      }
      if length.value > maximum || length.value > Remaining() {
        return Err(ResourceLimit);
      }
      ghost var before := Rest();
      var t := data[position..position + length.value];
      assert t == before[..length.value];
      position := position + length.value;
      assert Rest() == before[length.value..];
      return Ok(t);
    }

    /** A run of fixed-width fields, one after the other. */
    method ReadWords(widths: seq<nat>) returns (r: Result<seq<nat>>)
      requires Valid()
      modifies this
      ensures Valid()
      ensures r.Ok? <==> TakeWords(old(Rest()), widths).Ok?
      ensures r.Ok? ==> TakeWords(old(Rest()), widths) == Ok((r.value, Rest()))
      ensures r.Err? ==> TakeWords(old(Rest()), widths) == Err(r.code)
      decreases |widths|
    {
      hide TakeWord;
      if widths == [] {
        return Ok([]);
      }
      var first := ReadWord(widths[0]);
      if first.Err? {
        return Err(first.code);
      }
      var others := ReadWords(widths[1..]);
      if others.Err? {
        return others;
      }
      return Ok([first.value] + others.value);
    }
  }
}
