/**
 * Little-endian integer helpers: `fromLittleEndian` from an array, an array
 * slice, or a pull source, and `toLittleEndian` into a push sink. Bytes are
 * taken as unsigned values 0..255.
 */
module ByteUtils {
  import opened Wrappers

  /** A long holds at most eight bytes; asking for more is an argument error. */
  const MAX_BYTES: nat := 8

  function Pow256(n: nat): (r: nat)
    ensures r >= 1
  {
    if n == 0 then 1 else 256 * Pow256(n - 1)
  }

  /** The value of b read least-significant byte first. */
  function Decode(b: seq<byte>): (r: nat)
    ensures r < Pow256(|b|)
  {
    if b == [] then 0 else b[0] as nat + 256 * Decode(b[1..])
  }

  /** The low n bytes of v, least-significant first. */
  function Encode(v: nat, n: nat): (r: seq<byte>)
    ensures |r| == n
  {
    if n == 0 then [] else [(v % 256) as byte] + Encode(v / 256, n - 1)
  }

  /** An independent statement of the byte order: the sum of b[i] * 256^i, built from the last byte back. */
  function PositionalSum(b: seq<byte>): nat
  {
    if b == [] then 0 else PositionalSum(b[..|b| - 1]) + b[|b| - 1] as nat * Pow256(|b| - 1)
  }

  // ---------------------------------------------------------------------
  // The operations

  /** fromLittleEndian(byte[]): the whole array. */
  function FromLittleEndian(b: seq<byte>): (r: Result<nat>)
    ensures r.Err? <==> |b| > MAX_BYTES
    ensures r.Err? ==> r.error == IllegalArgument
    ensures r.Ok? ==> r.value == Decode(b)
  {
    if |b| > MAX_BYTES then Err(IllegalArgument) else Ok(Decode(b))
  }

  /**
   * fromLittleEndian(byte[], off, length): the length check comes first, so
   * a length over eight fails even on an empty array; a window outside the
   * array fails on the first byte that is read.
   */
  function FromLittleEndianSlice(b: seq<byte>, off: int, length: nat): (r: Result<nat>)
    ensures length > MAX_BYTES ==> r == Err(IllegalArgument)
    ensures length <= MAX_BYTES && 0 <= off && off + length <= |b| ==> r == FromLittleEndian(b[off..off + length])
    ensures length > 0 && (off < 0 || off + length > |b|) ==> r.Err?
  {
    if length > MAX_BYTES then Err(IllegalArgument)
    else if length == 0 then Ok(0)
    else if off < 0 || off + length > |b| then Err(IndexOutOfBounds)
    else Ok(Decode(b[off..off + length]))
  }

  /** What a pull from a source yields: a value or a failure, and the bytes the source still holds. */
  datatype Pull = Pull(result: Result<nat>, rest: seq<byte>)

  /** Pulls n bytes one at a time; a source that ends first is an I/O error, with everything it had consumed. */
  function PullBytes(src: seq<byte>, n: nat): (r: Pull)
    ensures n <= |src| ==> r == Pull(Ok(Decode(src[..n])), src[n..])
    ensures n > |src| ==> r == Pull(Err(IOError), [])
  {
    if n == 0 then Pull(Ok(0), src)
    else if src == [] then Pull(Err(IOError), [])
    else
      var tail := PullBytes(src[1..], n - 1);
      assert n <= |src| ==> src[..n][1..] == src[1..][..n - 1];
      match tail.result
      case Ok(v) => Pull(Ok(src[0] as nat + 256 * v), tail.rest)
      case Err(_) => tail
  }

  /**
   * fromLittleEndian(InputStream, length) and fromLittleEndian(ByteSupplier, length):
   * the length check comes before any byte is pulled.
   */
  function FromLittleEndianStream(src: seq<byte>, n: nat): (r: Pull)
    ensures n > MAX_BYTES ==> r == Pull(Err(IllegalArgument), src)
    ensures n <= MAX_BYTES ==> r == PullBytes(src, n)
  {
    if n > MAX_BYTES then Pull(Err(IllegalArgument), src) else PullBytes(src, n)
  }

  /** toLittleEndian(OutputStream, value, length) and toLittleEndian(ByteConsumer, value, length). */
  function ToLittleEndian(sink: seq<byte>, v: nat, n: nat): (r: seq<byte>)
    ensures |r| == |sink| + n && r[..|sink|] == sink
  {
    sink + Encode(v, n)
  }

  // ---------------------------------------------------------------------
  // Arithmetic helpers

  lemma MulAtLeast(d: int, k: int)
    requires d > 0 && k >= 1
    ensures d * k >= d
  {
  }

  lemma MulDistrib(d: int, a: int, b: int)
    ensures d * a - d * b == d * (a - b)
  {
  }

  lemma MulAssoc(a: int, b: int, c: int)
    ensures a * (b * c) == (a * b) * c
  {
  }

  /** Quotient and remainder are the only ones: any v == d * q + r with 0 <= r < d has them as v / d and v % d. */
  lemma DivModUnique(v: int, d: int, q: int, r: int)
    requires d > 0 && 0 <= r < d && v == d * q + r
    ensures v / d == q && v % d == r
  {
    var q0, r0 := v / d, v % d;
    assert v == d * q0 + r0;
    MulDistrib(d, q, q0);
    if q > q0 {
      MulAtLeast(d, q - q0);
      assert false;
    } else if q < q0 {
      MulAtLeast(d, q0 - q);
      MulDistrib(d, q0, q);
      assert false;
    }
  }

  /** Splitting v at its low byte and then splitting the rest by m splits v by 256 * m. */
  lemma SplitLowByte(v: nat, m: nat)
    requires m > 0
    ensures v / (256 * m) == v / 256 / m
    ensures v % (256 * m) == v % 256 + 256 * ((v / 256) % m)
  {
    var q, r0 := v / 256, v % 256;
    var q2, r1 := q / m, q % m;
    assert q == m * q2 + r1;
    MulAssoc(256, m, q2);
    assert v == (256 * m) * q2 + (256 * r1 + r0);
    assert 256 * r1 <= 256 * m - 256;
    DivModUnique(v, 256 * m, q2, 256 * r1 + r0);
  }

  // ---------------------------------------------------------------------
  // Properties

  /** Appending bytes adds their value scaled past the bytes already there. */
  lemma {:induction false} DecodeAppend(a: seq<byte>, c: seq<byte>)
    ensures Decode(a + c) == Decode(a) + Pow256(|a|) * Decode(c)
  {
    if a == [] {
      assert a + c == c;
    } else {
      assert (a + c)[1..] == a[1..] + c;
      DecodeAppend(a[1..], c);
      MulAssoc(256, Pow256(|a| - 1), Decode(c));
    }
  }

  /** Decoding is the positional sum: byte i weighs 256^i. */
  lemma {:induction false} DecodeIsPositionalSum(b: seq<byte>)
    ensures Decode(b) == PositionalSum(b)
  {
    if b != [] {
      var init, last := b[..|b| - 1], b[|b| - 1];
      assert b == init + [last];
      DecodeIsPositionalSum(init);
      DecodeAppend(init, [last]);
      assert Decode([last]) == last as nat + 256 * Decode([]);
      assert Pow256(|init|) * (last as nat) == (last as nat) * Pow256(|init|);
    }
  }

  /** Byte i of the encoding is digit i of v in base 256. */
  lemma {:induction false} EncodeDigit(v: nat, n: nat, i: nat)
    requires i < n
    ensures Encode(v, n)[i] == ((v / Pow256(i)) % 256) as byte
  {
    if i > 0 {
      EncodeDigit(v / 256, n - 1, i - 1);
      SplitLowByte(v, Pow256(i - 1));
    }
  }

  /** Encoding at width n and decoding gives v back modulo 256^n. */
  lemma {:induction false} DecodeEncode(v: nat, n: nat)
    ensures Decode(Encode(v, n)) == v % Pow256(n)
  {
    if n > 0 {
      var e, p := Encode(v, n), Pow256(n - 1);
      assert e[0] == (v % 256) as byte && e[1..] == Encode(v / 256, n - 1);
      DecodeEncode(v / 256, n - 1);
      assert Decode(e) == v % 256 + 256 * ((v / 256) % p);
      SplitLowByte(v, p);
    }
  }

  /** Decoding a byte sequence and encoding the value at the same width gives the bytes back. */
  lemma {:induction false} EncodeDecode(b: seq<byte>)
    ensures Encode(Decode(b), |b|) == b
  {
    if b != [] {
      var d := Decode(b[1..]);
      DivModUnique(Decode(b), 256, d, b[0] as nat);
      EncodeDecode(b[1..]);
    }
  }

  /** The round trip of the tests, for every value that fits: encode to a sink, decode from the array. */
  lemma EncodeThenDecode(v: nat, n: nat)
    requires n <= MAX_BYTES && v < Pow256(n)
    ensures FromLittleEndian(ToLittleEndian([], v, n)) == Ok(v)
  {
    assert ToLittleEndian([], v, n) == Encode(v, n);
    DecodeEncode(v, n);
    DivModUnique(v, Pow256(n), 0, v);
  }

  /** Encode to a stream, read back from it: the value comes out and the bytes after it stay in the source. */
  lemma EncodeThenPull(v: nat, n: nat, later: seq<byte>)
    requires n <= MAX_BYTES && v < Pow256(n)
    ensures FromLittleEndianStream(ToLittleEndian([], v, n) + later, n) == Pull(Ok(v), later)
  {
    var s := ToLittleEndian([], v, n) + later;
    assert s[..n] == Encode(v, n) && s[n..] == later;
    DecodeEncode(v, n);
    DivModUnique(v, Pow256(n), 0, v);
  }

  /** A pull of n bytes uses the first n bytes only: what the source holds after them is left in it. */
  lemma PullIgnoresLaterBytes(src: seq<byte>, later: seq<byte>, n: nat)
    requires n <= |src|
    ensures FromLittleEndianStream(src + later, n).result == FromLittleEndianStream(src, n).result
    ensures n <= MAX_BYTES ==> FromLittleEndianStream(src + later, n).rest == FromLittleEndianStream(src, n).rest + later
  {
    assert (src + later)[..n] == src[..n];
    assert (src + later)[n..] == src[n..] + later;
  }

  /** A slice decode depends only on the bytes inside the window. */
  lemma SliceDependsOnlyOnWindow(b: seq<byte>, off: nat, c: seq<byte>, off': nat, length: nat)
    requires off + length <= |b| && off' + length <= |c|
    requires b[off..off + length] == c[off'..off' + length]
    ensures FromLittleEndianSlice(b, off, length) == FromLittleEndianSlice(c, off', length)
  {
  }

  /** The values the tests assert: bytes {2, 3, 4} stand for 2 + 3 * 256 + 4 * 256 * 256. */
  lemma ValuesFromTests()
    ensures FromLittleEndian([2, 3, 4]) == Ok(2 + 3 * 256 + 4 * 256 * 256)
    ensures FromLittleEndian([1, 2, 3, 4, 5, 6, 7, 8, 9]) == Err(IllegalArgument)
    ensures FromLittleEndianSlice([1, 2, 3, 4, 5], 1, 3) == Ok(2 + 3 * 256 + 4 * 256 * 256)
    ensures FromLittleEndianSlice([], 0, 9) == Err(IllegalArgument)
    ensures FromLittleEndianStream([2, 3, 4, 5], 3).result == Ok(2 + 3 * 256 + 4 * 256 * 256)
    ensures FromLittleEndianStream([], 9).result == Err(IllegalArgument)
    ensures FromLittleEndianStream([2, 3], 3).result == Err(IOError)
    ensures ToLittleEndian([], 2 + 3 * 256 + 4 * 256 * 256, 3) == [2, 3, 4]
  {
  }
}
