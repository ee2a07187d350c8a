/**
 * MemoryStore as a state machine over values: the backing array, the cursor,
 * the logical size and the closed flag, with one function per operation
 * (the state it leaves and what it returns) and the properties the store
 * promises. The class in InMemory is proved to follow these functions.
 */
module StoreSpec {
  import opened Wrappers
  import opened JavaInt

  /** Below this requested length resize doubles; at or above it, it allocates exactly the request (MAX_VALUE >> 1). */
  const NAIVE_RESIZE_LIMIT: int := MAX_INT / 2

  /** bytes is the whole backing array; its length is the capacity. */
  datatype StoreState = StoreState(bytes: seq<byte>, position: int, size: int, closed: bool)

  /** What every operation keeps: the size fits the array, the array and the cursor fit a Java int. */
  predicate Valid(s: StoreState)
  {
    0 <= s.size <= |s.bytes| <= MAX_INT && 0 <= s.position <= MAX_INT
  }

  /** The logical contents of the store. */
  function Contents(s: StoreState): (c: seq<byte>)
    requires Valid(s)
    ensures |c| == s.size
  {
    s.bytes[..s.size]
  }

  /** The new state and what a void or value-returning operation gave back. */
  datatype Reply<T> = Reply(state: StoreState, result: Result<T>)

  // ---------------------------------------------------------------------
  // Capacity

  /** len doubled until it reaches target. */
  function Doubled(len: int, target: int): (r: int)
    requires len >= 1
    ensures r >= len && r >= target
    ensures len < target ==> r < 2 * target
    decreases target - len
  {
    if len < target then Doubled(2 * len, target) else len
  }

  /** The length resize(newLength) gives the array that has the given length. */
  function NewCapacity(length: int, newLength: int): (r: int)
    requires 0 <= length <= MAX_INT && 0 <= newLength <= MAX_INT
    ensures newLength <= r <= MAX_INT && 1 <= r
    ensures newLength >= NAIVE_RESIZE_LIMIT ==> r == newLength
    ensures newLength < NAIVE_RESIZE_LIMIT ==> length <= r
  {
    var start := if length <= 0 then 1 else length;
    if newLength < NAIVE_RESIZE_LIMIT then Doubled(start, newLength) else newLength
  }

  function Pow2(k: nat): (r: nat)
    ensures r >= 1
  {
    if k == 0 then 1 else 2 * Pow2(k - 1)
  }

  /** Doubling takes k steps; the result is len * 2^k. */
  function DoublingSteps(len: int, target: int): nat
    requires len >= 1
    decreases target - len
  {
    if len < target then 1 + DoublingSteps(2 * len, target) else 0
  }

  /** The doubled capacity is len * 2^k for the step count k, and one step fewer would not have reached target. */
  lemma {:induction false} DoubledIsLeastPowerMultiple(len: int, target: int)
    requires len >= 1
    ensures var k := DoublingSteps(len, target);
      Doubled(len, target) == len * Pow2(k) && (k > 0 ==> len * Pow2(k - 1) < target)
    decreases target - len
  {
    if len < target {
      DoubledIsLeastPowerMultiple(2 * len, target);
      var k := DoublingSteps(2 * len, target);
      assert Pow2(k + 1) == 2 * Pow2(k);
      assert (2 * len) * Pow2(k) == len * (2 * Pow2(k));
      if k > 0 {
        assert Pow2(k) == 2 * Pow2(k - 1);
        assert (2 * len) * Pow2(k - 1) == len * (2 * Pow2(k - 1));
      }
    }
  }

  /** The backing array after resize(newLength): Arrays.copyOf to the new capacity, zero-padded. */
  function Resized(bytes: seq<byte>, newLength: int): (r: seq<byte>)
    requires |bytes| <= MAX_INT && 0 <= newLength <= MAX_INT
    ensures |r| == NewCapacity(|bytes|, newLength)
    ensures forall i :: 0 <= i < |r| && i < |bytes| ==> r[i] == bytes[i]
    ensures forall i :: |bytes| <= i < |r| ==> r[i] == 0
  {
    var cap := NewCapacity(|bytes|, newLength);
    seq(cap, i requires 0 <= i < cap => if i < |bytes| then bytes[i] else 0)
  }

  /** bytes with src copied in at offset at. */
  function Place(bytes: seq<byte>, at: int, src: seq<byte>): (r: seq<byte>)
    requires 0 <= at && at + |src| <= |bytes|
    ensures |r| == |bytes| && r[at..at + |src|] == src
    ensures forall i :: 0 <= i < |bytes| && !(at <= i < at + |src|) ==> r[i] == bytes[i]
  {
    bytes[..at] + src + bytes[at + |src|..]
  }

  /** Copying the next n bytes of src after the first k already copied extends the copy to k + n bytes. */
  lemma PlaceNext(bytes: seq<byte>, at: int, src: seq<byte>, k: nat, n: nat)
    requires 0 <= at && k + n <= |src| && at + k + n <= |bytes|
    ensures Place(Place(bytes, at, src[..k]), at + k, src[k..k + n]) == Place(bytes, at, src[..k + n])
  {
  }

  // ---------------------------------------------------------------------
  // The operations

  /** seek(position): closed first, then the range check; any position in range is accepted, even past size. */
  function Seek(s: StoreState, target: int): (r: Reply<()>)
    ensures Valid(s) ==> Valid(r.state)
    ensures r.result.Ok? <==> !s.closed && 0 <= target <= MAX_INT
    ensures r.result.Ok? ==> r.state == s.(position := target)
    ensures r.result.Err? ==> r.state == s && r.result.error == (if s.closed then ClosedChannel else IllegalArgument)
  {
    if s.closed then Reply(s, Err(ClosedChannel))
    else if target < 0 || target > MAX_INT then Reply(s, Err(IllegalArgument))
    else Reply(s.(position := target), Ok(()))
  }

  /** repositionIfNecessary: a cursor past the end is pulled back to size. */
  function Reposition(s: StoreState): (r: StoreState)
    ensures r.position <= s.size && r.position <= s.position
    ensures r.position == s.position || r.position == s.size
    ensures r.bytes == s.bytes && r.size == s.size && r.closed == s.closed
  {
    if s.position > s.size then s.(position := s.size) else s
  }

  /** truncate(newSize) exactly as written: no closed check, no sign check, an (int) cast of the new size. */
  function TruncateAsWritten(s: StoreState, newSize: int): (r: StoreState)
    ensures r.bytes == s.bytes && r.closed == s.closed
    ensures -MAX_INT - 1 <= newSize <= MAX_INT && newSize < s.size ==> r.size == newSize
    ensures newSize >= s.size ==> r.size == s.size
    ensures r.position == if s.position > r.size then r.size else s.position
  {
    var size := if s.size > newSize then ToInt(newSize) else s.size;
    Reposition(s.(size := size))
  }

  /** truncate(newSize) with a negative size refused; otherwise as written. */
  function Truncate(s: StoreState, newSize: int): (r: Reply<()>)
    requires Valid(s)
    ensures Valid(r.state)
    ensures r.result.Err? <==> newSize < 0
    ensures r.result.Err? ==> r.state == s && r.result.error == IllegalArgument
    ensures r.result.Ok? ==> r.state.size == (if newSize < s.size then newSize else s.size)
    ensures r.result.Ok? ==> r.state.position == (if s.position > r.state.size then r.state.size else s.position)
    ensures r.state.bytes == s.bytes && r.state.closed == s.closed
  {
    if newSize < 0 then Reply(s, Err(IllegalArgument)) else Reply(TruncateAsWritten(s, newSize), Ok(()))
  }

  /** What read hands back: the new state, the count (-1 at the end) and the bytes given to the sink. */
  datatype ReadReply = ReadReply(state: StoreState, result: Result<int>, output: seq<byte>)

  /**
   * Both read variants, for a request of wanted bytes: clamp the cursor,
   * return -1 when nothing is left, else copy min(wanted, size - position) bytes.
   */
  function Read(s: StoreState, wanted: int): (r: ReadReply)
    requires Valid(s) && 0 <= wanted <= MAX_INT
    ensures Valid(r.state)
    ensures r.state.bytes == s.bytes && r.state.size == s.size && r.state.closed == s.closed
    ensures s.closed ==> r == ReadReply(s, Err(ClosedChannel), [])
  {
    if s.closed then ReadReply(s, Err(ClosedChannel), [])
    else
      var t := Reposition(s);
      var possible := t.size - t.position;
      if possible <= 0 then ReadReply(t, Ok(-1), [])
      else
        var k := if wanted > possible then possible else wanted;
        ReadReply(t.(position := t.position + k), Ok(k), t.bytes[t.position..t.position + k])
  }

  /** The array to copy into, after the resize a write may make, and how many bytes it takes. */
  datatype Room = Room(bytes: seq<byte>, count: int)

  /**
   * The resize step both write variants take: no resize when the bytes fit
   * before size; otherwise grow to position + wanted, or, when that sum
   * overflows an int, to MAX_VALUE with only MAX_VALUE - position bytes taken.
   */
  function Prepare(s: StoreState, wanted: int): (r: Room)
    requires Valid(s) && 0 <= wanted <= MAX_INT
    ensures s.size <= |r.bytes| <= MAX_INT
    ensures r.count == if s.position + wanted > MAX_INT then MAX_INT - s.position else wanted
    ensures 0 <= r.count <= wanted && s.position + r.count <= |r.bytes|
    ensures s.position + wanted > MAX_INT ==> |r.bytes| == MAX_INT
    ensures forall i :: 0 <= i < |r.bytes| && i < |s.bytes| ==> r.bytes[i] == s.bytes[i]
  {
    if wanted > s.size - s.position then
      if ToInt(s.position + wanted) < 0 then Room(Resized(s.bytes, MAX_INT), MAX_INT - s.position)
      else Room(Resized(s.bytes, s.position + wanted), wanted)
    else Room(s.bytes, wanted)
  }

  /** write(ByteBuffer): copy what fits, set size to at least the new position, return the count. */
  function WriteByteBuffer(s: StoreState, src: seq<byte>): (r: Reply<int>)
    requires Valid(s) && |src| <= MAX_INT
    ensures Valid(r.state)
    ensures s.closed ==> r == Reply(s, Err(ClosedChannel))
    ensures !s.closed ==> r.result == Ok(Prepare(s, |src|).count)
  {
    if s.closed then Reply(s, Err(ClosedChannel))
    else
      var room := Prepare(s, |src|);
      var end := s.position + room.count;
      Reply(StoreState(Place(room.bytes, s.position, src[..room.count]), end,
                       if s.size < end then end else s.size, false),
            Ok(room.count))
  }

  /**
   * write(Buffer, byteCount): the same copy, but size is raised only inside the
   * copy loop, so a write of nothing leaves it; a short copy is an I/O error.
   */
  function WriteBuffer(s: StoreState, source: seq<byte>, byteCount: int): (r: Reply<()>)
    requires Valid(s) && 0 <= byteCount <= MAX_INT && byteCount <= |source|
    ensures Valid(r.state)
    ensures s.closed ==> r == Reply(s, Err(ClosedChannel))
    ensures !s.closed ==> (r.result.Ok? <==> s.position + byteCount <= MAX_INT)
    ensures r.result.Err? && !s.closed ==> r.result.error == IOError
  {
    if s.closed then Reply(s, Err(ClosedChannel))
    else
      var room := Prepare(s, byteCount);
      var end := s.position + room.count;
      Reply(StoreState(Place(room.bytes, s.position, source[..room.count]), end,
                       if room.count != 0 && s.size < end then end else s.size, false),
            if room.count != byteCount then Err(IOError) else Ok(()))
  }

  /** close(): only the flag changes. */
  function Close(s: StoreState): (r: StoreState)
    ensures r.closed && r.bytes == s.bytes && r.position == s.position && r.size == s.size
  {
    s.(closed := true)
  }

  // ---------------------------------------------------------------------
  // Properties

  /** resize keeps the whole prefix that fits, never falls short of the request, and doubles only below the limit. */
  lemma ResizeKeepsPrefix(bytes: seq<byte>, newLength: int)
    requires |bytes| <= MAX_INT && 0 <= newLength <= MAX_INT
    ensures var r := Resized(bytes, newLength);
      |r| >= newLength &&
      (newLength >= NAIVE_RESIZE_LIMIT ==> |r| == newLength) &&
      (newLength < NAIVE_RESIZE_LIMIT ==> |r| >= |bytes| && r[..|bytes|] == bytes)
  {
  }

  /** A read returns -1 exactly when the clamped cursor is at size, and then gives nothing to the sink. */
  lemma ReadAtEnd(s: StoreState, wanted: int)
    requires Valid(s) && !s.closed && 0 <= wanted <= MAX_INT
    ensures var r := Read(s, wanted);
      (r.result == Ok(-1) <==> s.position >= s.size) &&
      (s.position >= s.size ==> r.output == [] && r.state.position == s.size)
  {
  }

  /** A read below the end copies min(wanted, size - position) bytes of the contents and moves the cursor past them. */
  lemma ReadCopiesContents(s: StoreState, wanted: int)
    requires Valid(s) && !s.closed && 0 <= wanted <= MAX_INT && s.position < s.size
    ensures var k := if wanted < s.size - s.position then wanted else s.size - s.position;
      var r := Read(s, wanted);
      r.result == Ok(k) && r.output == Contents(s)[s.position..s.position + k] &&
      r.state == s.(position := s.position + k)
  {
  }

  /**
   * A write that does not overflow, wherever the cursor is (even past size
   * after a seek), takes all of src, lands it at the cursor, moves the cursor
   * past it and raises size to the new cursor if below it; with the cursor
   * within the contents the new contents are the old ones with src spliced in.
   */
  lemma WriteOverwritesAndExtends(s: StoreState, src: seq<byte>)
    requires Valid(s) && !s.closed && s.position + |src| <= MAX_INT
    ensures var r := WriteByteBuffer(s, src);
      var p, n := s.position, |src|;
      r.result == Ok(n) && r.state.position == p + n &&
      r.state.size == (if s.size < p + n then p + n else s.size) &&
      r.state.bytes[p..p + n] == src &&
      (p <= s.size ==>
         Contents(r.state) == Contents(s)[..p] + src + (if p + n < s.size then Contents(s)[p + n..] else []))
  {
  }

  /** A write never disturbs the bytes before the cursor, even when it resizes or overflows. */
  lemma WriteKeepsBytesBefore(s: StoreState, src: seq<byte>, i: int)
    requires Valid(s) && |src| <= MAX_INT && 0 <= i < s.position && i < |s.bytes|
    ensures var r := WriteByteBuffer(s, src); i < |r.state.bytes| && r.state.bytes[i] == s.bytes[i]
  {
  }

  /** What was written at a position reads back after seeking to it. */
  lemma WriteThenReadBack(s: StoreState, src: seq<byte>)
    requires Valid(s) && !s.closed && 0 < |src| && s.position + |src| <= MAX_INT
    ensures var w := WriteByteBuffer(s, src);
      var t := Seek(w.state, s.position);
      t.result.Ok? && Read(t.state, |src|).result == Ok(|src|) && Read(t.state, |src|).output == src
  {
  }

  /** The two write variants leave the same bytes and cursor; they differ in the size after an empty write and in the result. */
  lemma WriteVariantsAgree(s: StoreState, src: seq<byte>)
    requires Valid(s) && !s.closed && |src| <= MAX_INT
    ensures var a, b := WriteBuffer(s, src, |src|), WriteByteBuffer(s, src);
      a.state.bytes == b.state.bytes && a.state.position == b.state.position &&
      (|src| > 0 && s.position < MAX_INT ==> a.state.size == b.state.size) &&
      (a.result.Ok? <==> b.result == Ok(|src|))
  {
  }

  /** On overflow both writes grow the array to exactly MAX_VALUE and copy only the MAX_VALUE - position bytes that fit. */
  lemma WriteOverflow(s: StoreState, src: seq<byte>)
    requires Valid(s) && !s.closed && |src| <= MAX_INT && s.position + |src| > MAX_INT
    ensures var k := MAX_INT - s.position;
      var a, b := WriteBuffer(s, src, |src|), WriteByteBuffer(s, src);
      |b.state.bytes| == MAX_INT && b.state.bytes[s.position..] == src[..k] &&
      b.state.position == MAX_INT && b.result == Ok(k) &&
      a.state.bytes == b.state.bytes && a.result == Err(IOError)
  {
  }

  /** truncate never grows the store, keeps the contents below the new size and leaves the cursor within it. */
  lemma TruncateKeepsPrefix(s: StoreState, newSize: int)
    requires Valid(s) && 0 <= newSize
    ensures var r := Truncate(s, newSize);
      r.result.Ok? && r.state.size <= s.size && r.state.position <= r.state.size &&
      Contents(r.state) == Contents(s)[..r.state.size]
  {
  }

  /** Once closed, seek, read and write fail and change nothing; tell, size and truncate still work. */
  lemma ClosedStoreRefuses(s: StoreState, target: int, wanted: int, src: seq<byte>, newSize: int)
    requires Valid(s) && s.closed && 0 <= wanted <= MAX_INT && |src| <= MAX_INT && 0 <= newSize
    ensures Seek(s, target) == Reply(s, Err(ClosedChannel))
    ensures Read(s, wanted) == ReadReply(s, Err(ClosedChannel), [])
    ensures WriteByteBuffer(s, src) == Reply(s, Err(ClosedChannel))
    ensures WriteBuffer(s, src, |src|) == Reply(s, Err(ClosedChannel))
    ensures Truncate(s, newSize).result == Ok(())
  {
  }

  /** As written, truncate(-1) leaves size and position at -1, which no operation expects. */
  lemma TruncateNegativeBreaksStore(s: StoreState)
    requires Valid(s)
    ensures var r := TruncateAsWritten(s, -1); r.size == -1 && r.position == -1 && !Valid(r)
  {
  }

  /** As written, a long below Integer.MIN_VALUE wraps in the (int) cast: truncate makes a 3-byte store 5 bytes long, past its array. */
  lemma TruncateWrapGrowsStore()
    ensures var s := StoreState([1, 2, 3], 0, 3, false);
      var r := TruncateAsWritten(s, -TWO_32 + 5); r.size == 5 && r.size > s.size && !Valid(r)
  {
  }
}
