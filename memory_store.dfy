/**
 * MemoryStore: an in-memory seekable byte store over a growable array. Each
 * method is proved to leave the state, and return the value, that the
 * matching function of StoreSpec gives; the properties proved there carry over.
 */
module InMemory {
  import opened Wrappers
  import opened JavaInt
  import StoreSpec

  class MemoryStore {
    var data: array<byte>
    var position: int
    var size: int
    var closed: bool

    /** The store as a value; State().bytes is what array() would expose. */
    ghost function State(): StoreSpec.StoreState
      reads this, data
    {
      StoreSpec.StoreState(data[..], position, size, closed)
    }

    ghost predicate Valid()
      reads this, data
    {
      StoreSpec.Valid(State())
    }

    /** MemoryStore(byte[]): the store uses the caller's array itself, all of it as contents. */
    constructor (d: array<byte>)
      requires d.Length <= MAX_INT
      ensures Valid() && data == d
      ensures State() == StoreSpec.StoreState(d[..], 0, d.Length, false)
    {
      data := d;
      size := d.Length;
      position := 0;
      closed := false;
    }

    /** MemoryStore(): an empty store over an empty array. */
    constructor Empty()
      ensures Valid() && fresh(data)
      ensures State() == StoreSpec.StoreState([], 0, 0, false)
    {
      data := new byte[0];
      size := 0;
      position := 0;
      closed := false;
    }

    /** MemoryStore(int size): n zero bytes, all of them contents. */
    constructor OfSize(n: nat)
      requires n <= MAX_INT
      ensures Valid() && fresh(data)
      ensures State() == StoreSpec.StoreState(seq(n, _ => 0), 0, n, false)
    {
      var zeros := new byte[n](_ => 0);
      assert zeros[..] == seq(n, _ => 0);
      data := zeros;
      size := n;
      position := 0;
      closed := false;
    }

    /** ensureOpen(): a closed store is a ClosedChannelException. */
    method EnsureOpen() returns (r: Result<()>)
      ensures r.Ok? <==> !closed
      ensures r.Ok? ==> r == Ok(())
      ensures r.Err? ==> r.error == ClosedChannel
    {
      r := if closed then Err(ClosedChannel) else Ok(());
    }

    method Seek(target: int) returns (r: Result<()>)
      requires Valid()
      modifies this
      ensures Valid() && data == old(data)
      ensures StoreSpec.Reply(State(), r) == StoreSpec.Seek(old(State()), target)
    {
      r := EnsureOpen();
      if r.Err? {
        return;
      }
      if target < 0 || target > MAX_INT {
        return Err(IllegalArgument);
      }
      position := target;
    }

    /** tell(): the cursor, unchecked by the closed flag and possibly past size. */
    method Tell() returns (p: int)
      requires Valid()
      ensures p == State().position && 0 <= p <= MAX_INT
    {
      p := position;
    }

    /** size(): unchecked by the closed flag. */
    method Size() returns (n: int)
      requires Valid()
      ensures n == |StoreSpec.Contents(State())| && n <= data.Length
    {
      n := size;
    }

    method RepositionIfNecessary()
      requires Valid()
      modifies this
      ensures Valid() && data == old(data)
      ensures State() == StoreSpec.Reposition(old(State()))
    {
      if position > size {
        position := size;
      }
    }

    /** truncate(newSize), refusing a negative size; unchecked by the closed flag. */
    method Truncate(newSize: int) returns (r: Result<()>)
      requires Valid()
      modifies this
      ensures Valid() && data == old(data)
      ensures StoreSpec.Reply(State(), r) == StoreSpec.Truncate(old(State()), newSize)
    {
      if newSize < 0 {
        return Err(IllegalArgument);
      }
      if size > newSize {
        size := ToInt(newSize);
      }
      RepositionIfNecessary();
      r := Ok(());
    }

    /** read(Buffer sink, byteCount): the bytes read are appended to the sink. */
    method ReadBuffer(sink: seq<byte>, byteCount: int) returns (r: Result<int>, sink': seq<byte>)
      requires Valid() && 0 <= byteCount <= MAX_INT
      modifies this
      ensures Valid() && data == old(data)
      ensures var reply := StoreSpec.Read(old(State()), byteCount);
        State() == reply.state && r == reply.result && sink' == sink + reply.output
    {
      var open := EnsureOpen();
      if open.Err? {
        return Err(open.error), sink;
      }
      RepositionIfNecessary();
      var wanted := byteCount;
      var possible := size - position;
      if possible <= 0 {
        return Ok(-1), sink;
      }
      if wanted > possible {
        wanted := possible;
      }
      sink' := sink + data[position..position + wanted];
      position := position + wanted;
      r := Ok(wanted);
    }

    /** read(ByteBuffer): remaining is the room left in the buffer, put the bytes placed in it. */
    method ReadByteBuffer(remaining: int) returns (r: Result<int>, put: seq<byte>)
      requires Valid() && 0 <= remaining <= MAX_INT
      modifies this
      ensures Valid() && data == old(data)
      ensures var reply := StoreSpec.Read(old(State()), remaining);
        State() == reply.state && r == reply.result && put == reply.output
    {
      var open := EnsureOpen();
      if open.Err? {
        return Err(open.error), [];
      }
      RepositionIfNecessary();
      var wanted := remaining;
      var possible := size - position;
      if possible <= 0 {
        return Ok(-1), [];
      }
      if wanted > possible {
        wanted := possible;
      }
      put := data[position..position + wanted];
      position := position + wanted;
      r := Ok(wanted);
    }

    /** resize(newLength): a fresh, zero-padded copy of the array at the capacity StoreSpec.NewCapacity gives. */
    method Resize(newLength: int)
      requires data.Length <= MAX_INT && 0 <= newLength <= MAX_INT
      modifies this
      ensures fresh(data) && data[..] == StoreSpec.Resized(old(data[..]), newLength)
      ensures position == old(position) && size == old(size) && closed == old(closed)
    {
      var len := data.Length;
      if len <= 0 {
        len := 1;
      }
      if newLength < StoreSpec.NAIVE_RESIZE_LIMIT {
        ghost var start := len;
        while len < newLength
          invariant 1 <= len
          invariant StoreSpec.Doubled(len, newLength) == StoreSpec.Doubled(start, newLength)
          decreases newLength - len
        {
          len := len * 2;
        }
      } else {
        len := newLength;
      }
      var copy := new byte[len](_ => 0);
      var keep := if data.Length < len then data.Length else len;
      forall i | 0 <= i < keep {
        copy[i] := data[i];
      }
      ghost var expected := StoreSpec.Resized(data[..], newLength);
      assert |expected| == len;
      assert forall i | 0 <= i < len :: copy[i] == expected[i];
      data := copy;
      assert data[..] == expected;
    }

    /** Copies chunk into the array at offset at, as Buffer.read(byte[], ...) and ByteBuffer.get(byte[], ...) do. */
    method CopyIn(chunk: seq<byte>, at: int)
      requires 0 <= at && at + |chunk| <= data.Length
      modifies data
      ensures data[..] == StoreSpec.Place(old(data[..]), at, chunk)
    {
      forall i | 0 <= i < |chunk| {
        data[at + i] := chunk[i];
      }
      assert data[..] == StoreSpec.Place(old(data[..]), at, chunk);
    }

    /** The resize step of both writes; returns how many of the wanted bytes fit. */
    method MakeRoom(wanted: int) returns (count: int)
      requires Valid() && 0 <= wanted <= MAX_INT
      modifies this
      ensures Valid() && (data == old(data) || fresh(data))
      ensures wanted <= old(size) - old(position) ==> data == old(data)
      ensures wanted > old(size) - old(position) ==> fresh(data)
      ensures var room := StoreSpec.Prepare(old(State()), wanted);
        data[..] == room.bytes && count == room.count
      ensures position == old(position) && size == old(size) && closed == old(closed)
    {
      count := wanted;
      var possibleWithoutResize := size - position;
      if wanted > possibleWithoutResize {
        var newSize := ToInt(position + wanted);
        if newSize < 0 {
          Resize(MAX_INT);
          count := MAX_INT - position;
        } else {
          Resize(newSize);
        }
      }
    }

    /**
     * write(ByteBuffer): src is what the buffer has remaining; returns how many
     * bytes were taken from it. The bytes go into the array the store already
     * has, which may be a caller's, unless the write must resize; then they go
     * into a fresh copy and the old array keeps its bytes.
     */
    method WriteByteBuffer(src: seq<byte>) returns (r: Result<int>)
      requires Valid() && |src| <= MAX_INT
      modifies this, data
      ensures Valid() && (data == old(data) || fresh(data))
      ensures old(closed) || |src| <= old(size) - old(position) ==> data == old(data)
      ensures !old(closed) && |src| > old(size) - old(position) ==> fresh(data) && old(data)[..] == old(data[..])
      ensures StoreSpec.Reply(State(), r) == StoreSpec.WriteByteBuffer(old(State()), src)
    {
      var open := EnsureOpen();
      if open.Err? {
        return Err(open.error);
      }
      var wanted := MakeRoom(|src|);
      CopyIn(src[..wanted], position);
      position := position + wanted;
      if size < position {
        size := position;
      }
      r := Ok(wanted);
    }

    /** One pass of the copy loop of write(Buffer): the chunk goes in at the cursor, which moves past it. */
    method PutChunk(chunk: seq<byte>)
      requires 0 <= position && position + |chunk| <= data.Length
      modifies this, data
      ensures data == old(data) && closed == old(closed)
      ensures data[..] == StoreSpec.Place(old(data[..]), old(position), chunk)
      ensures position == old(position) + |chunk|
      ensures size == if old(size) < position then position else old(size)
    {
      CopyIn(chunk, position);
      position := position + |chunk|;
      if size < position {
        size := position;
      }
    }

    /** The copy loop of write(Buffer): pulls wanted bytes from source into the array at the cursor. */
    method PullInto(source: seq<byte>, wanted: int) returns (rest: seq<byte>)
      requires 0 <= wanted <= |source| && 0 <= position && position + wanted <= data.Length
      modifies this, data
      ensures data == old(data) && closed == old(closed)
      ensures data[..] == StoreSpec.Place(old(data[..]), old(position), source[..wanted])
      ensures position == old(position) + wanted && rest == source[wanted..]
      ensures size == if wanted == 0 || position <= old(size) then old(size) else position
    {
      ghost var start, size0, room := position, size, data[..];
      var remain, copied := wanted, 0;
      while remain != 0
        invariant 0 <= remain <= wanted && copied == wanted - remain
        invariant data == old(data) && closed == old(closed)
        invariant position == start + copied
        invariant data[..] == StoreSpec.Place(room, start, source[..copied])
        invariant size == if copied == 0 || position <= size0 then size0 else position
        decreases remain
      {
        // okio hands over some count between 1 and remain (at most a segment); any such count will do
        var read :| 0 < read <= remain;
        PutChunk(source[copied..copied + read]);
        StoreSpec.PlaceNext(room, start, source, copied, read);
        remain, copied := remain - read, copied + read;
      }
      rest := source[wanted..];
    }

    /**
     * write(Buffer source, byteCount): pulls the bytes from the source a
     * chunk at a time into the array; rest is what the source still holds.
     * Fewer bytes taken than asked for (an int overflow) is an IOException,
     * after the copy.
     */
    method WriteBuffer(source: seq<byte>, byteCount: int) returns (r: Result<()>, rest: seq<byte>)
      requires Valid() && 0 <= byteCount <= MAX_INT && byteCount <= |source|
      modifies this, data
      ensures Valid() && (data == old(data) || fresh(data))
      ensures old(closed) || byteCount <= old(size) - old(position) ==> data == old(data)
      ensures !old(closed) && byteCount > old(size) - old(position) ==> fresh(data) && old(data)[..] == old(data[..])
      ensures StoreSpec.Reply(State(), r) == StoreSpec.WriteBuffer(old(State()), source, byteCount)
      ensures rest == if old(closed) then source else source[StoreSpec.Prepare(old(State()), byteCount).count..]
    {
      var open := EnsureOpen();
      if open.Err? {
        return Err(open.error), source;
      }
      var wanted := MakeRoom(byteCount);
      rest := PullInto(source, wanted);
      r := if wanted != byteCount then Err(IOError) else Ok(());
    }

    /** close(): sets the flag; closing twice is harmless. */
    method Close()
      requires Valid()
      modifies this
      ensures Valid() && data == old(data)
      ensures State() == StoreSpec.Close(old(State()))
    {
      closed := true;
    }
  }
}
