# MemoryStore and the little-endian byte helpers of commons-compress

This project models two pieces of the commons-compress test utilities:

- `MemoryStore`, an in-memory implementation of okio's seekable `Store`. It keeps
  - a growable backing array `data`;
  - a logical `size`;
  - a cursor `position`;
  - a `closed` flag.

  It supports `seek`/`tell`/`size`/`truncate`, two bounded `read` variants, two
  `write` variants that overwrite and extend, and a private doubling `resize`.
- The contract of `ByteUtils.fromLittleEndian` / `toLittleEndian`, which the tests in
  `ByteUtilsTest` state. These decode up to eight bytes, least significant first, from
  an array, an array slice or a pull source, and encode a value into a push sink.

Layout:

- `wrappers.dfy` holds two modules.
  - `Wrappers`: the `Failure` values for the Java exceptions (`IllegalArgumentException`,
    `ClosedChannelException`, `IOException`, an array index error), a `Result` type, and
    `byte`, a byte taken as its unsigned value.
  - `JavaInt`: `Integer.MAX_VALUE` and the `(int)` narrowing cast, written out as
    two's-complement wrap-around.
- `store_spec.dfy`, module `StoreSpec`: the store as a value `StoreState(bytes, position,
  size, closed)`. It has one function per operation, giving the new state and the result,
  and the lemmas that state what the store promises.
- `memory_store.dfy`, module `InMemory`: the class `MemoryStore`.
  - Its fields are `data: array<byte>`, `position`, `size` and `closed`.
  - The constructors state their initial `State()` outright. Every other public operation
    (`seek`, `truncate`, both reads, both writes, `close`) and `repositionIfNecessary` is
    proved to leave `State()` as the matching `StoreSpec` function says, and to return what
    that function returns. `tell` and `size` return the cursor and the length of the contents. The private steps
    (`resize`, the in-place copy, the write loop) are proved against `StoreSpec.Resized`,
    `StoreSpec.Place` and `StoreSpec.Prepare`.
  - `resize` keeps its doubling loop. `write(Buffer)` keeps its copy loop on `remain`.
  - Slices are copied into the array in place.
- `byte_utils.dfy`, module `ByteUtils`: decode and encode as recursive functions, the
  four entry points on top of them, and the round-trip lemmas.

Java `int` arithmetic appears where it matters:

- `newSize = position + wanted` is taken through the `(int)` cast, so the overflow branch
  of both writes is the one the Java code takes.
- `NAIVE_RESIZE_LIMIT` is `MAX_VALUE >> 1`.
- `size = (int) newSize` in `truncate` is taken through the same cast, so a `long` below
  `Integer.MIN_VALUE` wraps (see Findings).

Elsewhere every quantity is kept in `0..MAX_VALUE`, so no other wrap-around can occur.

## Model

| member | source | states |
|---|---|---|
| JavaInt.ToInt | src/test/java/org/apache/commons/compress/utils/MemoryStore.java:119-120 | the `(int)` cast: the result is a 32-bit int congruent to the input modulo 2^32, equal to it in range, and a sum just past MAX_VALUE becomes negative |
| StoreSpec.Contents | src/test/java/org/apache/commons/compress/utils/MemoryStore.java:37-39 | the contents are the first `size` bytes of the backing array |
| StoreSpec.Doubled | src/test/java/org/apache/commons/compress/utils/MemoryStore.java:179-182 | doubling `len` until it reaches the target never shrinks it, reaches the target, and overshoots it by less than a factor of two |
| StoreSpec.NewCapacity | src/test/java/org/apache/commons/compress/utils/MemoryStore.java:174-185 | the capacity resize chooses is at least 1 and at least the request, fits an int, is exactly the request at or above NAIVE_RESIZE_LIMIT, and is never below the old length under it |
| StoreSpec.DoubledIsLeastPowerMultiple | src/test/java/org/apache/commons/compress/utils/MemoryStore.java:175-182 | the doubled capacity is `max(length,1) * 2^k`, and `2^(k-1)` times it falls short of the request, so it is the least power-of-two multiple that suffices |
| StoreSpec.Resized | src/test/java/org/apache/commons/compress/utils/MemoryStore.java:174-187 | `Arrays.copyOf` to the new capacity: the old bytes up to the new length are kept and the new tail is zero |
| StoreSpec.Place | src/test/java/org/apache/commons/compress/utils/MemoryStore.java:153 | copying a slice in at an offset puts exactly that slice there and leaves every other byte as it was |
| StoreSpec.Seek | src/test/java/org/apache/commons/compress/utils/MemoryStore.java:55-61 | seek succeeds iff the store is open and the target is in 0..MAX_VALUE; then the cursor is exactly the target, even past size; otherwise nothing changes and the closed error comes before the argument error |
| StoreSpec.Reposition | src/test/java/org/apache/commons/compress/utils/MemoryStore.java:199-203 | a cursor past size is pulled back to size, never forward; nothing else changes |
| StoreSpec.TruncateAsWritten | src/test/java/org/apache/commons/compress/utils/MemoryStore.java:73-78 | truncate exactly as written: when the new size is below size, size becomes `(int) newSize`, which is the new size within int range but wraps for a `long` below `Integer.MIN_VALUE`, possibly above the old size; a larger new size keeps size; the cursor is then clamped, and bytes and flag are kept |
| StoreSpec.Truncate | src/test/java/org/apache/commons/compress/utils/MemoryStore.java:73-78 | truncate with a negative size refused with an argument error; otherwise size is `min(size, newSize)`, the cursor is clamped to it, and the result is a valid store |
| StoreSpec.Read | src/test/java/org/apache/commons/compress/utils/MemoryStore.java:81-111 | both reads keep the bytes, size and flag and leave a valid store; a closed store gives the closed error and nothing else |
| StoreSpec.Prepare | src/test/java/org/apache/commons/compress/utils/MemoryStore.java:116-126 | the resize step: the count taken is the request, or MAX_VALUE - position when position + request overflows; in that case the array grows to exactly MAX_VALUE; the count always fits the array and the old bytes are kept |
| StoreSpec.WriteByteBuffer | src/test/java/org/apache/commons/compress/utils/MemoryStore.java:140-159 | write(ByteBuffer) leaves a valid store and returns the count Prepare allows; a closed store gives the closed error and changes nothing |
| StoreSpec.WriteBuffer | src/test/java/org/apache/commons/compress/utils/MemoryStore.java:113-138 | write(Buffer) leaves a valid store; it succeeds iff position + byteCount fits an int, and otherwise fails with an I/O error; a closed store gives the closed error and changes nothing |
| StoreSpec.Close | src/test/java/org/apache/commons/compress/utils/MemoryStore.java:169-172 | close sets the flag and changes nothing else |
| StoreSpec.ResizeKeepsPrefix | src/test/java/org/apache/commons/compress/utils/MemoryStore.java:174-187 | after resize the capacity is at least the request, exactly the request at or above the limit, and below the limit the whole old array is a prefix of the new one |
| StoreSpec.ReadAtEnd | src/test/java/org/apache/commons/compress/utils/MemoryStore.java:83-88 | a read returns -1 iff the cursor is at or past size, and then outputs nothing and leaves the cursor at size |
| StoreSpec.ReadCopiesContents | src/test/java/org/apache/commons/compress/utils/MemoryStore.java:81-95 | below the end a read returns k = min(request, size - position), outputs contents[position..position+k) and moves only the cursor, by k |
| StoreSpec.WriteOverwritesAndExtends | src/test/java/org/apache/commons/compress/utils/MemoryStore.java:140-159 | a write of n bytes that fits, wherever the cursor is (even past size after a seek), returns n, moves the cursor by n, makes size `max(size, position+n)` and puts the n bytes at the cursor; with the cursor within the contents, the new contents are the old ones with the n bytes spliced in |
| StoreSpec.WriteKeepsBytesBefore | src/test/java/org/apache/commons/compress/utils/MemoryStore.java:143-153 | a write, even one that resizes or overflows, keeps every byte before the cursor |
| StoreSpec.WriteThenReadBack | src/test/java/org/apache/commons/compress/utils/MemoryStore.java:140-159 | after a non-empty write that does not overflow, at any cursor, seeking back to where the bytes went and reading that many returns them all |
| StoreSpec.WriteVariantsAgree | src/test/java/org/apache/commons/compress/utils/MemoryStore.java:113-159 | both write variants leave the same array and cursor, and the same size for a non-empty write at a cursor below MAX_VALUE; write(Buffer) succeeds iff write(ByteBuffer) takes everything |
| StoreSpec.WriteOverflow | src/test/java/org/apache/commons/compress/utils/MemoryStore.java:119-123 | on int overflow both writes grow the array to MAX_VALUE and copy only the first MAX_VALUE - position bytes; write(ByteBuffer) returns that shorter count and write(Buffer) fails with an I/O error after the same copy |
| StoreSpec.TruncateKeepsPrefix | src/test/java/org/apache/commons/compress/utils/MemoryStore.java:73-78 | truncate never grows the store, leaves the cursor within it, and keeps the contents below the new size |
| StoreSpec.ClosedStoreRefuses | src/test/java/org/apache/commons/compress/utils/MemoryStore.java:193-197 | once closed, seek, both reads and both writes fail with the closed error and change nothing, while truncate still succeeds |
| StoreSpec.TruncateNegativeBreaksStore | src/test/java/org/apache/commons/compress/utils/MemoryStore.java:73-78 | as written, truncate(-1) leaves size and position at -1, a broken store |
| StoreSpec.TruncateWrapGrowsStore | src/test/java/org/apache/commons/compress/utils/MemoryStore.java:73-78 | as written, truncate(-2^32 + 5) on a 3-byte store wraps to size 5, growing the store past the end of its array |
| InMemory.MemoryStore.constructor | src/test/java/org/apache/commons/compress/utils/MemoryStore.java:41-44 | the store uses the caller's array itself, all of it as contents, with the cursor at 0, open |
| InMemory.MemoryStore.Empty | src/test/java/org/apache/commons/compress/utils/MemoryStore.java:46-48 | an open, empty store over a fresh empty array |
| InMemory.MemoryStore.OfSize | src/test/java/org/apache/commons/compress/utils/MemoryStore.java:50-52 | an open store whose contents are n zero bytes |
| InMemory.MemoryStore.EnsureOpen | src/test/java/org/apache/commons/compress/utils/MemoryStore.java:189-197 | succeeds iff the store is open, else fails with the closed error |
| InMemory.MemoryStore.Seek | src/test/java/org/apache/commons/compress/utils/MemoryStore.java:55-61 | the new state and result are those of StoreSpec.Seek |
| InMemory.MemoryStore.Tell | src/test/java/org/apache/commons/compress/utils/MemoryStore.java:63-66 | returns the cursor, which fits an int, whether or not the store is closed |
| InMemory.MemoryStore.Size | src/test/java/org/apache/commons/compress/utils/MemoryStore.java:68-71 | returns the length of the contents, whether or not the store is closed |
| InMemory.MemoryStore.RepositionIfNecessary | src/test/java/org/apache/commons/compress/utils/MemoryStore.java:199-203 | the new state is StoreSpec.Reposition of the old |
| InMemory.MemoryStore.Truncate | src/test/java/org/apache/commons/compress/utils/MemoryStore.java:73-78 | the new state and result are those of StoreSpec.Truncate |
| InMemory.MemoryStore.ReadBuffer | src/test/java/org/apache/commons/compress/utils/MemoryStore.java:80-95 | the new state and count are those of StoreSpec.Read, and the bytes read are appended to the sink |
| InMemory.MemoryStore.ReadByteBuffer | src/test/java/org/apache/commons/compress/utils/MemoryStore.java:97-111 | the new state and count are those of StoreSpec.Read, and the bytes put into the buffer are its output |
| InMemory.MemoryStore.Resize | src/test/java/org/apache/commons/compress/utils/MemoryStore.java:174-187 | the doubling loop replaces the array with a fresh one equal to StoreSpec.Resized of the old, and no other field changes |
| InMemory.MemoryStore.CopyIn | src/test/java/org/apache/commons/compress/utils/MemoryStore.java:153 | the array afterwards is StoreSpec.Place of the array before |
| InMemory.MemoryStore.MakeRoom | src/test/java/org/apache/commons/compress/utils/MemoryStore.java:116-126 | the array and count afterwards are those of StoreSpec.Prepare, the array object is kept when the bytes fit before size, and is a fresh one otherwise; cursor, size and flag are kept |
| InMemory.MemoryStore.WriteByteBuffer | src/test/java/org/apache/commons/compress/utils/MemoryStore.java:140-159 | the new state and result are those of StoreSpec.WriteByteBuffer; the array is the same one (the caller's, for a store built on one) when the bytes fit before size; when the write has to resize, the array is a fresh copy and the old one (a caller's array included) keeps its bytes |
| InMemory.MemoryStore.PutChunk | src/test/java/org/apache/commons/compress/utils/MemoryStore.java:129-134 | one pass of the copy loop: the chunk lands at the cursor, the cursor moves past it, and size is raised to the cursor if below it |
| InMemory.MemoryStore.PullInto | src/test/java/org/apache/commons/compress/utils/MemoryStore.java:128-135 | whatever count from 1 to `remain` each pass takes, the whole copy loop puts the first `wanted` source bytes at the cursor, moves the cursor by `wanted`, raises size only if a byte was copied, and leaves the rest of the source |
| InMemory.MemoryStore.WriteBuffer | src/test/java/org/apache/commons/compress/utils/MemoryStore.java:113-138 | the new state and result are those of StoreSpec.WriteBuffer, and the source keeps exactly the bytes not taken; the array is the same one when the bytes fit before size; when the write has to resize, the array is a fresh copy and the old one keeps its bytes |
| InMemory.MemoryStore.Close | src/test/java/org/apache/commons/compress/utils/MemoryStore.java:169-172 | the new state is StoreSpec.Close of the old |
| ByteUtils.Decode | src/test/java/org/apache/commons/compress/utils/ByteUtilsTest.java:34-37 | the value of n bytes is below 256^n |
| ByteUtils.Encode | src/test/java/org/apache/commons/compress/utils/ByteUtilsTest.java:89-95 | encoding at width n emits exactly n bytes |
| ByteUtils.FromLittleEndian | src/test/java/org/apache/commons/compress/utils/ByteUtilsTest.java:33-42 | decoding a whole array fails with an argument error iff it has more than eight bytes, and otherwise gives its little-endian value |
| ByteUtils.FromLittleEndianSlice | src/test/java/org/apache/commons/compress/utils/ByteUtilsTest.java:44-53 | a length over eight fails with an argument error before any bounds check; a window in the array decodes exactly as the whole-array call on that window; a non-empty window outside the array fails |
| ByteUtils.PullBytes | src/test/java/org/apache/commons/compress/utils/ByteUtilsTest.java:55-70 | pulling n bytes from a source of at least n gives the value of its first n bytes and leaves the rest; a shorter source is an I/O error |
| ByteUtils.FromLittleEndianStream | src/test/java/org/apache/commons/compress/utils/ByteUtilsTest.java:55-87 | a length over eight fails with an argument error before any byte is pulled; otherwise it is PullBytes |
| ByteUtils.ToLittleEndian | src/test/java/org/apache/commons/compress/utils/ByteUtilsTest.java:89-103 | the sink keeps what it had and gains exactly n bytes |
| ByteUtils.DecodeIsPositionalSum | src/test/java/org/apache/commons/compress/utils/ByteUtilsTest.java:34-37 | the decoded value is the sum of b[i] * 256^i |
| ByteUtils.DecodeAppend | src/test/java/org/apache/commons/compress/utils/ByteUtilsTest.java:34-37 | decoding a + c is decoding a plus 256^len(a) times decoding c |
| ByteUtils.EncodeDigit | src/test/java/org/apache/commons/compress/utils/ByteUtilsTest.java:89-95 | byte i of the encoding is digit i of the value in base 256, least significant first |
| ByteUtils.DecodeEncode | src/test/java/org/apache/commons/compress/utils/ByteUtilsTest.java:89-95 | decoding the width-n encoding gives the value modulo 256^n |
| ByteUtils.EncodeDecode | src/test/java/org/apache/commons/compress/utils/ByteUtilsTest.java:34-37 | encoding the decoded value at the same width gives the bytes back |
| ByteUtils.EncodeThenDecode | src/test/java/org/apache/commons/compress/utils/ByteUtilsTest.java:89-95 | for n <= 8 and v < 256^n, toLittleEndian then fromLittleEndian gives v |
| ByteUtils.EncodeThenPull | src/test/java/org/apache/commons/compress/utils/ByteUtilsTest.java:55-59 | for n <= 8 and v < 256^n, reading back from a stream that starts with the encoding gives v and leaves the later bytes in the stream |
| ByteUtils.PullIgnoresLaterBytes | src/test/java/org/apache/commons/compress/utils/ByteUtilsTest.java:55-59 | a stream decode of n bytes gives the same result whatever follows them, and leaves what follows in the source |
| ByteUtils.SliceDependsOnlyOnWindow | src/test/java/org/apache/commons/compress/utils/ByteUtilsTest.java:44-48 | two slice decodes over equal windows agree |
| ByteUtils.ValuesFromTests | src/test/java/org/apache/commons/compress/utils/ByteUtilsTest.java:33-103 | each value and error the tests assert, for the array, slice, stream and sink variants |

## Left out

- `flush`, `timeout` and `array()`. The first two do nothing. `array()` is the ghost view `State().bytes`.
- The `AtomicBoolean` is a plain `bool`: there is no concurrency in the model.
- okio `Buffer` and `ByteBuffer` are byte sequences.
  - A sink gains the bytes read.
  - A source hands over bytes from its front.
  - `ByteBuffer.remaining()` is the length of what it holds, or the room it has left.
  - Their positions, limits and segment pools are not modelled.
- InMemory.MemoryStore.PullInto: okio's `Buffer.read(byte[], int, int)` is foreign code. Each pass takes an arbitrary count from 1 to `remain` (okio gives at most one segment), and the end state is proved for every such choice. A source that runs dry early, where okio returns -1, is excluded by requiring it to hold `byteCount` bytes.
- InMemory.MemoryStore.ReadBuffer: requires `0 <= byteCount <= MAX_VALUE`. The `(int)` cast of a larger or negative `long` is not modelled, and okio forbids a negative count.
- InMemory.MemoryStore.WriteBuffer: requires `0 <= byteCount <= MAX_VALUE` and a source that holds at least `byteCount` bytes, as okio's `Sink.write` demands. The `(int)` cast of a larger `long` is not modelled.
- InMemory.MemoryStore.OfSize: takes a `nat`. The `NegativeArraySizeException` of `new byte[size]` for a negative size is not modelled.
- InMemory.MemoryStore.Truncate: refuses a negative size with an argument error. The Java code accepts it (see Findings), and its as-written behaviour is `StoreSpec.TruncateAsWritten`.
- The store does not claim that the gap left by seeking past `size` and then writing is zero. `truncate` leaves the old bytes in the array, and write does not clamp the cursor. The model keeps whatever the array holds.
- `ByteUtils` itself is not part of this model. Its behaviour is taken from the assertions of `ByteUtilsTest`.
- ByteUtils.FromLittleEndian: bytes are unsigned values 0..255 and the value is a `nat`. The signed Java `byte`, and the negative `long` that eight bytes with a top byte of 128 or more yield, are not modelled.
- ByteUtils.FromLittleEndianSlice: `length` is a `nat`. A negative length is not modelled.
- ByteUtils.ToLittleEndian: the value is a `nat`. Negative values are not modelled.
- The `InputStreamByteSupplier` and `OutputStreamByteConsumer` adapters are not part of this model. A stream and a supplier are both a sequence of bytes pulled from the front. A stream and a consumer are both a sequence that grows at the back.
- `Archiver` (filesystem walk and format dispatch) and `BaseTestCase` (resource lookup and temp files) are filesystem I/O, left out.
- The 7z entry navigation (`SevenZFile`) and the LZ4 block decoder are out of scope: the tests that exercise them compare against binary fixtures, and this model covers only the store and the byte helpers.
- The overflow branch of both writes grows the array to exactly `MAX_VALUE` bytes, as the code asks. Common JVMs refuse an array that long with an `OutOfMemoryError`; the model does not capture that limit.

## Findings

| source | as written | input that shows it | evidently intended | confidence | as-written member | corrected member |
|---|---|---|---|---|---|---|
| src/test/java/org/apache/commons/compress/utils/MemoryStore.java:73-78 | `truncate(newSize)` has no sign check. A negative size is cast and stored, and `repositionIfNecessary` then pulls the cursor to it. A `long` below `Integer.MIN_VALUE` wraps in the `(int)` cast and can even grow the store. | `truncate(-1)` on any store leaves size and position at -1. On a 3-byte store, `truncate(-4294967291)` (that is, -2^32 + 5) wraps in the cast to size 5, past the end of the array (`StoreSpec.TruncateWrapGrowsStore`). A following one-byte `write` then copies nothing: it asks for offset -1 (`b.get(data, -1, 1)`, or okio's offset check in `source.read`) and fails with an index exception. | As with `FileChannel.truncate`, a negative size is refused with `IllegalArgumentException`, and size and position never go below 0. | medium, not executed | StoreSpec.TruncateNegativeBreaksStore | StoreSpec.Truncate |
