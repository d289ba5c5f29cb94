/**
 * Fixed-width little-endian integers as they appear in the binary index files:
 * `int` values are written as 4 bytes and `long long` values as 8 bytes, both
 * two's complement, low byte first (the native layout of the x86-64 machines
 * the indexer and the engine run on).
 */
module ByteCodec {
  import opened Wrappers

  newtype byte = x: int | 0 <= x < 256
  type Bytes = seq<byte>

  const TWO31: int := 0x8000_0000
  const TWO32: int := 0x1_0000_0000
  const TWO63: int := 0x8000_0000_0000_0000
  const TWO64: int := 0x1_0000_0000_0000_0000

  predicate IsInt32(x: int) { -TWO31 <= x < TWO31 }
  predicate IsInt64(x: int) { -TWO63 <= x < TWO63 }

  function Pow256(n: nat): (p: nat)
    ensures p >= 1
  {
    if n == 0 then 1 else 256 * Pow256(n - 1)
  }

  lemma Pow256Widths()
    ensures Pow256(4) == TWO32 && Pow256(8) == TWO64
  {
    assert Pow256(2) == 65536;
    assert Pow256(4) == 256 * (256 * Pow256(2));
    assert Pow256(6) == 256 * (256 * Pow256(4));
    assert Pow256(8) == 256 * (256 * Pow256(6));
  }

  /** The n low-order bytes of u, lowest first. */
  function EncodeLE(u: nat, n: nat): (bs: Bytes)
    ensures |bs| == n
  {
    if n == 0 then [] else [(u % 256) as byte] + EncodeLE(u / 256, n - 1)
  }

  /** The unsigned value of a little-endian byte string. */
  function DecodeLE(bs: Bytes): (u: nat)
    ensures u < Pow256(|bs|)
  {
    if bs == [] then 0 else bs[0] as nat + 256 * DecodeLE(bs[1..])
  }

  lemma {:induction false} DecodeEncodeLE(u: nat, n: nat)
    requires u < Pow256(n)
    ensures DecodeLE(EncodeLE(u, n)) == u
  {
    if n > 0 {
      assert u / 256 < Pow256(n - 1);
      DecodeEncodeLE(u / 256, n - 1);
      assert EncodeLE(u, n)[1..] == EncodeLE(u / 256, n - 1);
    }
  }

  /** What `fwrite(&x, sizeof(int), 1, f)` writes: x reduced modulo 2^32. */
  function Int32Bytes(x: int): (bs: Bytes)
    ensures |bs| == 4
  {
    EncodeLE(x % TWO32, 4)
  }

  /** What `fwrite(&x, sizeof(long long), 1, f)` writes. */
  function Int64Bytes(x: int): (bs: Bytes)
    ensures |bs| == 8
  {
    EncodeLE(x % TWO64, 8)
  }

  /** The signed `int` that four stored bytes hold. */
  function Int32Of(bs: Bytes): (x: int)
    requires |bs| == 4
    ensures IsInt32(x)
  {
    Pow256Widths();
    var u := DecodeLE(bs);
    if u >= TWO31 then u - TWO32 else u
  }

  /** The signed `long long` that eight stored bytes hold. */
  function Int64Of(bs: Bytes): (x: int)
    requires |bs| == 8
    ensures IsInt64(x)
  {
    Pow256Widths();
    var u := DecodeLE(bs);
    if u >= TWO63 then u - TWO64 else u
  }

  lemma Int32RoundTrip(x: int)
    requires IsInt32(x)
    ensures Int32Of(Int32Bytes(x)) == x
  {
    Pow256Widths();
    DecodeEncodeLE(x % TWO32, 4);
  }

  lemma Int64RoundTrip(x: int)
    requires IsInt64(x)
    ensures Int64Of(Int64Bytes(x)) == x
  {
    Pow256Widths();
    DecodeEncodeLE(x % TWO64, 8);
  }

  /** `in.read(&x, sizeof(int))`: fails when fewer than four bytes remain. */
  function ReadInt32(b: Bytes): (r: Result<(int, Bytes)>)
    ensures r.Ok? <==> |b| >= 4
    ensures r.Ok? ==> IsInt32(r.value.0) && r.value.1 == b[4..]
  {
    if |b| < 4 then Err(ShortRead) else Ok((Int32Of(b[..4]), b[4..]))
  }

  /** `in.read(&x, sizeof(long long))`. */
  function ReadInt64(b: Bytes): (r: Result<(int, Bytes)>)
    ensures r.Ok? <==> |b| >= 8
    ensures r.Ok? ==> IsInt64(r.value.0) && r.value.1 == b[8..]
  {
    if |b| < 8 then Err(ShortRead) else Ok((Int64Of(b[..8]), b[8..]))
  }

  /** `s.resize(n); in.read(s.data(), n)`: a negative n is rejected by resize. */
  function ReadBytes(b: Bytes, n: int): (r: Result<(Bytes, Bytes)>)
    ensures r.Ok? <==> 0 <= n <= |b|
    ensures r.Ok? ==> r.value.0 + r.value.1 == b && |r.value.0| == n
  {
    if n < 0 then Err(BadLength)
    else if n > |b| then Err(ShortRead)
    else Ok((b[..n], b[n..]))
  }

  lemma ReadInt32Of(x: int, rest: Bytes)
    requires IsInt32(x)
    ensures ReadInt32(Int32Bytes(x) + rest) == Ok((x, rest))
  {
    var b := Int32Bytes(x) + rest;
    assert b[..4] == Int32Bytes(x);
    assert b[4..] == rest;
    Int32RoundTrip(x);
  }

  lemma ReadInt64Of(x: int, rest: Bytes)
    requires IsInt64(x)
    ensures ReadInt64(Int64Bytes(x) + rest) == Ok((x, rest))
  {
    var b := Int64Bytes(x) + rest;
    assert b[..8] == Int64Bytes(x);
    assert b[8..] == rest;
    Int64RoundTrip(x);
  }

  // ------------------------------------------------- sequence bookkeeping

  lemma Assoc<T>(a: seq<T>, b: seq<T>, c: seq<T>)
    ensures (a + b) + c == a + (b + c)
  {
  }

  lemma ConsSplit<T>(s: seq<T>)
    requires s != []
    ensures [s[0]] + s[1..] == s
  {
  }
}
