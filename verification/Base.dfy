/** Machine words, error codes, limits and the small arithmetic helpers every layer shares. */
module Base {

  const TWO16: int := 0x1_0000
  const TWO32: int := 0x1_0000_0000
  const TWO64: int := 0x1_0000_0000_0000_0000

  type byte = x: int | 0 <= x < 256
  type u16 = x: int | 0 <= x < TWO16
  type u32 = x: int | 0 <= x < TWO32
  type u64 = x: int | 0 <= x < TWO64

  /** A C++ `std::string` or `std::string_view`: bytes, no encoding. */
  type text = seq<byte>

  datatype Option<+T> = None | Some(value: T)

  datatype ErrorCode =
    | Truncated
    | InvalidSignature
    | InvalidVersion
    | ChecksumMismatch
    | InvalidOffset
    | InvalidBlock
    | InvalidInode
    | InvalidDirectory
    | InvalidExtent
    | InvalidPath
    | InvalidName
    | LoopDetected
    | NotFound
    | AlreadyExists
    | NotDirectory
    | IsDirectory
    | DirectoryNotEmpty
    | PermissionDenied
    | NoSpace
    | Overflow
    | ResourceLimit
    | JournalError
    | TransactionError
    | Unsupported
    | InternalError

  datatype Result<+T> = Ok(value: T) | Err(code: ErrorCode) {
    predicate IsFailure() {
      Err?
    }

    function PropagateFailure<U>(): Result<U>
      requires Err?
    {
      Err(code)
    }

    function Extract(): T
      requires Ok?
    {
      value
    }
  }

  datatype RawLimits = RawLimits(
    maxImageBytes: u64,
    maxFileBytes: u64,
    maxInodes: u64,
    maxBlocks: u64,
    maxDirectoryEntries: u64,
    maxJournalRecords: u64,
    maxAttributeBytes: u64,
    maxNameBytes: u32,
    maxPathBytes: u32,
    maxPathComponents: u32,
    maxSymlinkDepth: u32,
    maxWalkDepth: u32,
    maxExtents: u32,
    maxHardLinks: u32,
    minBlockSize: u32,
    maxBlockSize: u32
  )

  /** A block is never empty, and the counters that run one past a limit do not wrap. The default limits
      of the source satisfy this with room to spare. */
  predicate CountersFit(l: RawLimits) {
    && 1 <= l.minBlockSize
    && l.maxFileBytes < TWO64 - 1
    && l.maxInodes < TWO64 - 1
    && l.maxJournalRecords < TWO64 - 1
    && l.maxNameBytes + 24 < TWO32
  }

  /** Every count these limits allow fits the field of the image that stores it. The default limits
      satisfy this as well. */
  predicate FitsFields(l: RawLimits) {
    && l.maxFileBytes + 48 < TWO32
    && l.maxInodes < TWO32
    && l.maxDirectoryEntries < TWO32
    && l.maxJournalRecords < TWO32
    && l.maxAttributeBytes < TWO32
    && l.maxNameBytes + 24 < TWO16
  }

  const DEFAULT_LIMITS := RawLimits(
    268435456, 67108864, 1000000, 4000000, 1000000, 1000000, 4194304,
    255, 4096, 256, 40, 256, 65536, 65535, 512, 65536)

  type Limits = l: RawLimits | CountersFit(l) witness DEFAULT_LIMITS

  type ImageLimits = l: Limits | FitsFields(l) witness DEFAULT_LIMITS

  function CheckedAdd(left: u64, right: u64): (r: Option<u64>)
    ensures r == if left + right < TWO64 then Some(left + right) else None
  {
    if right > TWO64 - 1 - left then None else Some(left + right)
  }

  function CheckedMultiply(left: u64, right: u64): (r: Option<u64>)
    ensures r.Some? <==> left * right < TWO64
    ensures r.Some? ==> r.value == left * right
  {
    if left == 0 then
      Some(0)
    else
      DivideBound(left, right);
      if right > (TWO64 - 1) / left then None else Some(left * right)
  }

  lemma DivideBound(left: u64, right: u64)
    requires left != 0
    ensures right <= (TWO64 - 1) / left <==> left * right < TWO64
    ensures 0 <= left * right
  {
    var q := (TWO64 - 1) / left;
    assert left * q <= TWO64 - 1 < left * (q + 1);
    if right <= q {
      MulMonotone(left, right, q);
    } else {
      MulMonotone(left, q + 1, right);
    }
  }

  lemma MulMonotone(a: nat, x: int, y: int)
    requires x <= y
    ensures a * x <= a * y
  {
  }

  function Quotient(a: nat, b: nat): (q: nat)
    requires b > 0
    ensures q * b <= a < q * b + b
  {
    a / b
  }

  lemma DivModUnique(q: nat, r: nat, b: nat)
    requires r < b
    ensures 0 <= q * b
    ensures (q * b + r) / b == q
    ensures (q * b + r) % b == r
  {
    var q', r' := (q * b + r) / b, (q * b + r) % b;
    assert q' * b + r' == q * b + r;
    if q' < q {
      MulMonotone(b, q' + 1, q);
    } else if q' > q {
      MulMonotone(b, q + 1, q');
    }
  }

  function Wrap32(x: int): u32 {
    x % TWO32
  }

  function Wrap64(x: int): u64 {
    x % TWO64
  }

  function Min(a: int, b: int): int {
    if a <= b then a else b
  }

  function Max(a: int, b: int): int {
    if a >= b then a else b
  }

  /** `block_size & (block_size - 1)) == 0`, the power-of-two test of the source. */
  predicate PowerOfTwo(n: u32) {
    var bits := n as bv32;
    bits & (bits - 1) == 0
  }

  /** The least number of `divisor`-sized pieces that hold `value` bytes. */
  function CeilDivide(value: nat, divisor: nat): (n: nat)
    requires divisor > 0
    ensures n * divisor >= value
    ensures n > 0 ==> (n - 1) * divisor < value
    ensures n <= value
  {
    if value == 0 then
      0
    else
      var q := (value - 1) / divisor;
      assert q * divisor <= value - 1 < q * divisor + divisor;
      assert (q + 1) * divisor == q * divisor + divisor;
      MulMonotone(q, 1, divisor);
      1 + q
  }

  /** Position `p` lies inside the first `value` bytes only if its piece is one of those. */
  lemma CeilDivideCovers(value: nat, divisor: nat, p: nat)
    requires divisor > 0
    ensures p / divisor < CeilDivide(value, divisor) <==> p < CeilDivide(value, divisor) * divisor
    ensures p < value ==> p / divisor < CeilDivide(value, divisor)
  {
    var n := CeilDivide(value, divisor);
    var q := p / divisor;
    assert q * divisor <= p < q * divisor + divisor;
    if q < n {
      MulMonotone(divisor, q + 1, n);
    } else {
      MulMonotone(divisor, n, q);
    }
  }

  lemma CeilDivideMonotone(a: nat, b: nat, divisor: nat)
    requires divisor > 0 && a <= b
    ensures CeilDivide(a, divisor) <= CeilDivide(b, divisor)
  {
    var m, n := CeilDivide(a, divisor), CeilDivide(b, divisor);
    if m > n {
      MulMonotone(divisor, n, m - 1);
    }
  }

  /** Bytes of a directory record for a name: a 16-byte header, rounded up to eight. */
  function AlignedDirectoryLength(nameSize: nat): (n: u32)
    ensures nameSize + 24 < TWO32 ==> n % 8 == 0 && nameSize + 16 <= n < nameSize + 24
  {
    Wrap32((16 + nameSize + 7) / 8 * 8)
  }

  function LowerByte(b: byte): byte {
    if 65 <= b <= 90 then b + 32 else b
  }

  /** `normalize_name`: ASCII lower case, byte by byte. */
  function NormalizeName(name: text): (key: text)
    ensures |key| == |name|
    ensures forall i :: 0 <= i < |name| ==> key[i] == LowerByte(name[i])
  {
    seq(|name|, i requires 0 <= i < |name| => LowerByte(name[i]))
  }

  const SLASH: byte := 47
  const DOT: text := [46]
  const DOTDOT: text := [46, 46]

  /** The integers of `low..high`. */
  function Interval(low: int, high: int): (s: set<int>)
    ensures forall b :: b in s <==> low <= b < high
    decreases high - low
  {
    if high <= low then {} else Interval(low, high - 1) + {high - 1}
  }

  lemma {:induction false} SubsetSize<T>(small: set<T>, large: set<T>)
    requires small <= large
    ensures |small| <= |large|
    decreases |small|
  {
    if small != {} {
      var x :| x in small;
      SubsetSize(small - {x}, large - {x});
    }
  }

  lemma {:induction false} IntervalCount(low: int, high: int)
    requires low <= high
    ensures |Interval(low, high)| == high - low
    decreases high - low
  {
    if low < high {
      IntervalCount(low, high - 1);
      assert high - 1 !in Interval(low, high - 1);
    }
  }

  /** The keys of a set of identifiers in increasing order: the order of a C++ `std::map`. */
  function SortedKeys(s: set<u64>): (r: seq<u64>)
    ensures forall x :: x in r <==> x in s
    ensures Increasing(r)
  {
    if s == {} then
      []
    else
      var least := Least(s);
      var rest := SortedKeys(s - {least});
      assert forall i :: 0 <= i < |rest| ==> rest[i] in s - {least};
      [least] + rest
  }

  predicate Increasing(r: seq<u64>) {
    forall i, j :: 0 <= i < j < |r| ==> r[i] < r[j]
  }

  lemma {:induction false} SortedKeysLength(s: set<u64>)
    ensures |SortedKeys(s)| == |s|
  {
    if s != {} {
      SortedKeysLength(s - {Least(s)});
    }
  }

  function Least(s: set<u64>): (least: u64)
    requires s != {}
    ensures least in s
    ensures forall x :: x in s ==> least <= x
  {
    assert exists least :: least in s && forall x :: x in s ==> least <= x by {
      var least := LeastExists(s);
    }
    var least :| least in s && forall x :: x in s ==> least <= x;
    least
  }

  lemma {:induction false} LeastExists(s: set<u64>) returns (least: u64)
    requires s != {}
    ensures least in s
    ensures forall x :: x in s ==> least <= x
  {
    var pick :| pick in s;
    least := pick;
    if s != {pick} {
      var low := LeastExists(s - {pick});
      least := Min(pick, low);
      assert forall x :: x in s ==> x == pick || x in s - {pick};
    }
  }

  lemma OneMember<T>(s: set<T>, a: T, b: T)
    requires |s| == 1 && a in s && b in s
    ensures a == b
  {
    assert |s - {a}| == 0;
    assert b !in s - {a};
  }
}
