/** Definitions shared by the BER writer and the two BER readers: the octet
    type of a node Buffer, the ASN.1 universal tag numbers the codec uses,
    the error taxonomy, the outcome of a read or write, and the 32-bit integer
    conversions that JavaScript's bitwise operators apply. */
module Asn1 {
  import opened Arith

  /** An octet as stored in a node Buffer. */
  type Byte = x: int | 0 <= x < 256

  // Universal tag numbers (the tag table of lib/common/types.js).
  const Boolean: Byte := 1
  const Integer: Byte := 2
  const OctetString: Byte := 4
  const Null: Byte := 5
  const OID: Byte := 6
  const Enumeration: Byte := 10
  const Sequence: Byte := 16
  /** The constructed-encoding bit of a tag octet. */
  const Constructor: Byte := 0x20

  /** The errors the codec throws. */
  datatype Error =
    | InvalidAsn1Error       // malformed encoding or an unencodable value
    | InsufficientDataError  // the older reader's "buffer too short"
    | OidSyntaxError         // writeOID's 'argument is not a valid OID string'
    | AssertionError         // a failed assert.ok inside the writer

  /** The outcome of a read: a value, the null "insufficient data, retry"
      result of the current reader, or a thrown error. */
  datatype Read<+T> = Got(value: T) | NoData | Fail(err: Error)

  /** A value or a thrown error. */
  datatype Result<+T> = Ok(value: T) | Err(err: Error)

  /** The outcome of a write: it completed, or it threw. */
  datatype Outcome = Done | Throw(err: Error)

  /** An optional argument: None stands for an `undefined` one. */
  datatype Option<+T> = None | Some(value: T)

  const Two31: int := 0x8000_0000
  const Two32: int := 0x1_0000_0000

  /** The values of a JavaScript int32 (the operands and results of `<<`, `|`, `&`). */
  predicate IsInt32(x: int) {
    -Two31 <= x < Two31
  }

  /** ECMAScript ToInt32: the int32 congruent to x modulo 2^32. */
  function ToInt32(x: int): (r: int)
    ensures IsInt32(r)
    ensures (x - r) % Two32 == 0
    ensures IsInt32(x) ==> r == x
  {
    (x + Two31) % Two32 - Two31
  }

  /** ECMAScript ToUint32 (what `>>> 0` yields, and the bit pattern of an int32). */
  function ToUint32(x: int): (r: nat)
    ensures r < Two32
    ensures (x - r) % Two32 == 0
  {
    x % Two32
  }

  /** A node Buffer stores the low octet of the number assigned to an element. */
  function ToUint8(x: int): (r: Byte)
    ensures (x - r) % 256 == 0
  {
    x % 256
  }

  /** The int32 congruent to x modulo 2^32 is unique. */
  lemma Int32Unique(x: int, y: int)
    requires IsInt32(y) && (x - y) % Two32 == 0
    ensures ToInt32(x) == y
  {
    ModCongruent(x + Two31, y + Two31, Two32);
    DivModUnique(y + Two31, Two32, 0, y + Two31);
  }

  lemma Uint32OfInt32(x: int)
    ensures ToUint32(ToInt32(x)) == ToUint32(x)
  {
    ModCongruent(x, ToInt32(x), Two32);
  }

  /** Multiplying (a left shift) commutes with the int32 wrap-around. */
  lemma Int32Scale(x: int, m: int)
    ensures ToInt32(ToInt32(x) * m) == ToInt32(x * m)
  {
    var r, t := ToInt32(x), ToInt32(x * m);
    var k, j := (x - r) / Two32, (x * m - t) / Two32;
    assert x - r == k * Two32;
    assert x * m - t == j * Two32;
    ScaleDifference(x, r, k, m, Two32);
    assert r * m - t == (j - k * m) * Two32;
    MulModZero(j - k * m, Two32);
    Int32Unique(r * m, t);
  }

  /** `(x << 8) + b` and `(x << 7) + c`: for an octet (or 7-bit group) c
      added after the shift, the sum of the wrapped shift and c is the
      wrap-around of the exact value, because the wrapped shift has its low
      bits clear. */
  lemma ShiftAdd(x: int, m: int, c: int)
    requires m == 128 || m == 256
    requires 0 <= c < m
    ensures ToInt32(ToInt32(x) * m) + c == ToInt32(x * m + c)
  {
    Int32Scale(x, m);
    var t := ToInt32(x * m);
    WrappedLowBits(x, m, c);
    ModCongruent(x * m + c, t + c, Two32);
    Int32Unique(x * m + c, t + c);
  }

  /** The wrapped shift is a multiple of m, so adding c < m stays an int32. */
  lemma WrappedLowBits(x: int, m: int, c: int)
    requires m == 128 || m == 256
    requires 0 <= c < m
    ensures ToInt32(x * m) + c < Two31
  {
    var t := ToInt32(x * m);
    var k := (x * m - t) / Two32;
    assert x * m - t == k * Two32;
    var q := x - k * (Two32 / m);
    assert t == m * q by {
      assert Two32 == m * (Two32 / m);
      assert k * Two32 == k * (m * (Two32 / m));
    }
  }

  /** JavaScript `Math.trunc(x / d)`: division rounding toward zero. */
  function TruncDiv(x: int, d: nat): (r: int)
    requires d > 0
    ensures x >= 0 ==> r == x / d
  {
    if x >= 0 then x / d else -((-x) / d)
  }

  /** JavaScript `x % d`: the remainder takes the sign of the dividend. */
  function TruncRem(x: int, d: nat): (r: int)
    requires d > 0
    ensures x == TruncDiv(x, d) * d + r
    ensures -(d as int) < r < d
    ensures x >= 0 ==> r == x % d
  {
    x - TruncDiv(x, d) * d
  }

  // ---------------------------------------------------------------------
  // Buffer access as JavaScript performs it

  /** `buf[i] & 0xff`: the octet at i, or 0 where i is outside the buffer
      (`undefined & 0xff` is 0). */
  function ByteAt(buf: seq<Byte>, i: int): Byte {
    if 0 <= i < |buf| then buf[i] else 0
  }

  /** The n octets from position at, fetched one by one with ByteAt. */
  function Octets(buf: seq<Byte>, at: int, n: nat): (r: seq<Byte>)
    ensures |r| == n
  {
    if n == 0 then [] else Octets(buf, at, n - 1) + [ByteAt(buf, at + n - 1)]
  }

  lemma {:induction false} OctetsSlice(buf: seq<Byte>, at: int, n: nat)
    requires 0 <= at && at + n <= |buf|
    ensures Octets(buf, at, n) == buf[at..at + n]
  {
    if n > 0 {
      OctetsSlice(buf, at, n - 1);
      assert buf[at..at + n] == buf[at..at + n - 1] + [buf[at + n - 1]];
    }
  }

  lemma {:induction false} OctetsFirst(buf: seq<Byte>, at: int, n: nat)
    requires n >= 1
    ensures Octets(buf, at, n)[0] == ByteAt(buf, at)
  {
    if n > 1 {
      OctetsFirst(buf, at, n - 1);
    }
  }

  /** A node Buffer's slice index: a negative index counts from the end, and
      the result is clamped to [0, size]. */
  function SliceIndex(i: int, size: nat): (r: nat)
    ensures r <= size
    ensures 0 <= i <= size ==> r == i
  {
    if i < 0 then (if i + size < 0 then 0 else i + size) else if i > size then size else i
  }

  /** `buf.slice(start, end)` on a node Buffer: empty when the clamped end
      does not lie after the clamped start. */
  function NodeSlice(buf: seq<Byte>, start: int, end: int): (r: seq<Byte>)
    ensures 0 <= start <= end <= |buf| ==> r == buf[start..end]
  {
    var a, b := SliceIndex(start, |buf|), SliceIndex(end, |buf|);
    if a < b then buf[a..b] else []
  }
}
