/**
 * Bytes, fixed-width unsigned integers and the little-endian layout that
 * `fread`/`fwrite` of an integer field produce on a little-endian host.
 */
module Bytes {

  type byte = x: int | 0 <= x < 0x100
  type u16 = x: int | 0 <= x < 0x1_0000
  type u32 = x: int | 0 <= x < 0x1_0000_0000

  const U32: nat := 0x1_0000_0000
  const U64: nat := 0x1_0000_0000_0000_0000

  /** C `uint32_t` arithmetic: the result of an int expression reduced mod 2^32. */
  function Wrap32(x: int): (r: u32)
    ensures 0 <= x < U32 ==> r == x
    ensures (r - x) % U32 == 0
  {
    x % U32
  }

  /** Reducing before an addition does not change the reduced sum. */
  lemma Wrap32Shift(x: int, k: int)
    ensures Wrap32(Wrap32(x) + k) == Wrap32(x + k)
  {
    var q := x / U32;
    assert x == q * U32 + Wrap32(x);
    assert Wrap32(x) + k == (x + k) + (-q) * U32;
    ModMultiple(x + k, -q);
  }

  lemma ModMultiple(y: int, q: int)
    ensures (y + q * U32) % U32 == y % U32
  {
  }

  /** C `size_t` (64-bit) arithmetic. */
  function Wrap64(x: int): (r: nat)
    ensures r < U64
    ensures 0 <= x < U64 ==> r == x
    ensures -(U64 as int) <= x < 0 ==> r == x + U64
  {
    x % U64
  }

  function Pow256(n: nat): (r: nat)
    ensures r > 0
  {
    if n == 0 then 1 else 256 * Pow256(n - 1)
  }

  lemma {:induction false} Pow256Mono(m: nat, n: nat)
    requires m <= n
    ensures Pow256(m) <= Pow256(n)
  {
    if m < n {
      Pow256Mono(m, n - 1);
    }
  }

  /** The unsigned value of a little-endian byte string. */
  function LE(bs: seq<byte>): nat
  {
    if bs == [] then 0 else bs[0] + 256 * LE(bs[1..])
  }

  lemma {:induction false} LEBound(bs: seq<byte>)
    ensures LE(bs) < Pow256(|bs|)
  {
    if bs != [] {
      LEBound(bs[1..]);
    }
  }

  /** The n bytes `fwrite(&v, n, 1, stream)` emits for an n-byte unsigned field. */
  function LEBytes(v: nat, n: nat): (r: seq<byte>)
    ensures |r| == n
  {
    if n == 0 then [] else [v % 256] + LEBytes(v / 256, n - 1)
  }

  /** Encoding a field and decoding the same bytes gives the field back. */
  lemma {:induction false} LERoundTrip(v: nat, n: nat)
    requires v < Pow256(n)
    ensures LE(LEBytes(v, n)) == v
  {
    if n > 0 {
      LERoundTrip(v / 256, n - 1);
      assert LEBytes(v, n)[1..] == LEBytes(v / 256, n - 1);
    }
  }

  /**
   * What `fread(buf, n, 1, stream)` copies when the cursor is at `pos`:
   * the bytes still available, at most n of them. The cursor then moves
   * by the number of bytes returned.
   */
  function Fread(s: seq<byte>, pos: nat, n: nat): (r: seq<byte>)
    ensures |r| <= n
    ensures pos + n <= |s| ==> |r| == n
    ensures |r| == n && n > 0 ==> pos + n <= |s|
    ensures forall k | 0 <= k < |r| :: pos + k < |s| && r[k] == s[pos + k]
  {
    if pos >= |s| then []
    else if pos + n <= |s| then s[pos..pos + n]
    else s[pos..]
  }

  /**
   * The value of the n-byte field a calloc'd struct holds after
   * `fread(&field, n, 1, stream)` at offset o: the available bytes, the
   * missing high bytes staying 0.
   */
  function FieldAt(s: seq<byte>, o: nat, n: nat): (v: nat)
    ensures v < Pow256(n)
    ensures o + n <= |s| ==> v == LE(s[o..o + n])
    ensures o >= |s| ==> v == 0
  {
    var bs := Fread(s, o, n);
    LEBound(bs);
    Pow256Mono(|bs|, n);
    LE(bs)
  }

  /** The byte at position i, or the calloc'd 0 when the stream is shorter. */
  function ByteAt(s: seq<byte>, i: nat): (b: byte)
    ensures i < |s| ==> b == s[i]
    ensures i >= |s| ==> b == 0
  {
    if i < |s| then s[i] else 0
  }

  /** Byte j of what follows a prefix is read at the prefix's length plus j. */
  lemma ByteAtAppended(pre: seq<byte>, rest: seq<byte>, j: nat)
    requires j < |rest|
    ensures ByteAt(pre + rest, |pre| + j) == rest[j]
  {
  }

  /** A field written with LEBytes and read back with FieldAt is recovered. */
  lemma {:induction false} FieldRoundTrip(pre: seq<byte>, v: nat, n: nat, post: seq<byte>)
    requires v < Pow256(n)
    ensures FieldAt(pre + LEBytes(v, n) + post, |pre|, n) == v
  {
    var s := pre + LEBytes(v, n) + post;
    assert s[|pre|..|pre| + n] == LEBytes(v, n);
    LERoundTrip(v, n);
  }
}
