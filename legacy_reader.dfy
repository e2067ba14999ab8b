/** The older BER reader of lib/ber/reader.js. It reads the same TLV shapes
    as the current one under a different contract: a short buffer throws
    InsufficientDataError instead of answering null, the cursor advances as
    octets are consumed and is not rolled back when a later check throws,
    and integers are decoded as sign and magnitude.

    Each method is proved against an effect function on the buffer and the
    old cursor (LengthEffect, SequenceEffect, StringEffect, TagEffect). */
module BerLegacyReader {
  import opened Arith
  import opened Asn1
  import opened BerEncoding

  /** The outcome of an operation and the cursor it leaves, including after
      a throw: offset is `_offset`, len is `_len`. */
  datatype Effect<+T> = Effect(result: Result<T>, offset: int, len: int)

  /** readLength() (lib/ber/reader.js:69-97): the length field at the cursor
      is consumed; its initial octet is consumed even when it then throws. */
  function LengthEffect(buf: seq<Byte>, offset: int, len: int): Effect<int> {
    if offset >= |buf| then Effect(Err(InsufficientDataError), offset, len)
    else
      var lenB, o := ByteAt(buf, offset), offset + 1;
      if lenB < 0x80 then Effect(Ok(lenB), o, lenB)
      else if lenB == 0x80 || lenB > 0x84 then Effect(Err(InvalidAsn1Error), o, len)
      else
        var n := lenB - 0x80;
        if |buf| - o < n then Effect(Err(InsufficientDataError), o, len)
        else
          var v := ToInt32(UnsignedBE(Octets(buf, o, n)));
          Effect(Ok(v), o + n, v)
  }

  /** readSequence() (lib/ber/reader.js:107-111): the tag octet, whatever it
      is, and the length field after it are consumed. */
  function SequenceEffect(buf: seq<Byte>, offset: int, len: int): Effect<Byte> {
    if offset >= |buf| then Effect(Err(InsufficientDataError), offset, len)
    else
      var l := LengthEffect(buf, offset + 1, len);
      Effect(if l.result.Ok? then Ok(ByteAt(buf, offset)) else Err(l.result.err), l.offset, l.len)
  }

  /** readString() (lib/ber/reader.js:129-146): only the OctetString tag is
      accepted; a content running past the buffer throws. */
  function StringEffect(buf: seq<Byte>, offset: int, len: int): Effect<seq<Byte>> {
    if offset >= |buf| then Effect(Err(InsufficientDataError), offset, len)
    else if ByteAt(buf, offset) != OctetString then Effect(Err(InvalidAsn1Error), offset + 1, len)
    else
      var l := LengthEffect(buf, offset + 1, len);
      if l.result.Err? then Effect(Err(l.result.err), l.offset, l.len)
      else
        var n := l.result.value;
        if n > |buf| - l.offset then Effect(Err(InsufficientDataError), l.offset, l.len)
        else if n == 0 then Effect(Ok([]), l.offset, l.len)
        else Effect(Ok(NodeSlice(buf, l.offset, l.offset + n)), l.offset + n, l.len)
  }

  /** The sign-and-magnitude value of an integer content: the first octet
      with its top bit cleared followed by the rest, read as unsigned, and
      negated when that bit was set. */
  function LegacyValue(fb: Byte, rest: seq<Byte>): int {
    var m: int := UnsignedBE([fb % 128] + rest);
    if fb >= 0x80 then -m else m
  }

  /** _readTag(tag) (lib/ber/reader.js:149-176): after the tag and length
      checks the first content octet is always consumed, even for a length
      of 0, so the cursor can end one past the buffer. */
  function TagEffect(buf: seq<Byte>, offset: int, len: int, tag: int): Effect<int> {
    if offset >= |buf| then Effect(Err(InsufficientDataError), offset, len)
    else if ByteAt(buf, offset) != tag then Effect(Err(InvalidAsn1Error), offset + 1, len)
    else
      var l := LengthEffect(buf, offset + 1, len);
      if l.result.Err? then Effect(Err(l.result.err), l.offset, l.len)
      else
        var n := l.result.value;
        if n > 4 then Effect(Err(InvalidAsn1Error), l.offset, l.len)
        else if n > |buf| - l.offset then Effect(Err(InsufficientDataError), l.offset, l.len)
        else
          var k := if n > 1 then n else 1;
          Effect(Ok(LegacyValue(ByteAt(buf, l.offset), Octets(buf, l.offset + 1, k - 1))), l.offset + k, l.len)
  }

  /** `_readTag(Boolean) === 0 ? false : true`. */
  function AsBoolean(v: Result<int>): (r: Result<bool>)
    ensures r == Ok(false) <==> v == Ok(0)
    ensures r.Err? <==> v.Err?
  {
    match v
    case Ok(x) => Ok(x != 0)
    case Err(e) => Err(e)
  }

  // ---------------------------------------------------------------------
  // Properties of the effects

  /** A magnitude of one to four octets whose first octet is below 128 is
      below 128 * 256^(n-1), so the int32 accumulator never wraps. */
  lemma MagnitudeBound(a: Byte, rest: seq<Byte>)
    requires a < 128
    ensures UnsignedBE([a] + rest) < 128 * Pow256(|rest|)
  {
    var p, s := Pow256(|rest|), [a] + rest;
    UnsignedBECons(s);
    assert s[0] == a && s[1..] == rest;
    DigitBelow(a, p, UnsignedBE(rest), 128);
  }

  /** Clearing the top bit of the first octet lowers the value by 128 *
      256^(n-1) when that bit was set. */
  lemma ClearedValue(bs: seq<Byte>)
    requires |bs| >= 1
    ensures UnsignedBE([bs[0] % 128] + bs[1..])
            == UnsignedBE(bs) - (if bs[0] >= 0x80 then 128 * Pow256(|bs| - 1) else 0)
  {
    var c := [bs[0] % 128] + bs[1..];
    UnsignedBECons(bs);
    UnsignedBECons(c);
    assert c[0] == bs[0] % 128 && c[1..] == bs[1..];
    ClearLead(bs[0], Pow256(|bs| - 1), UnsignedBE(bs[1..]), UnsignedBE(bs), UnsignedBE(c));
  }

  /** Every throw leaves the cursor at or after where it was: nothing is
      rolled back. A tag mismatch leaves it just past the tag octet. */
  lemma ErrorsDoNotRewind(buf: seq<Byte>, offset: int, len: int, tag: int)
    ensures LengthEffect(buf, offset, len).result.Err? ==> LengthEffect(buf, offset, len).offset >= offset
    ensures TagEffect(buf, offset, len, tag).result.Err? ==> TagEffect(buf, offset, len, tag).offset >= offset
    ensures StringEffect(buf, offset, len).result.Err? ==> StringEffect(buf, offset, len).offset >= offset
    ensures SequenceEffect(buf, offset, len).result.Err? ==> SequenceEffect(buf, offset, len).offset >= offset
    ensures offset < |buf| && ByteAt(buf, offset) != tag ==>
      TagEffect(buf, offset, len, tag) == Effect(Err(InvalidAsn1Error), offset + 1, len)
  {
  }

  /** A zero-length integer still consumes the octet after its length field
      and decodes it: at the end of the buffer that octet is missing (0),
      and the cursor ends one past the buffer. */
  lemma ZeroLengthConsumes(buf: seq<Byte>, offset: int, len: int, tag: Byte)
    requires 0 <= offset && offset + 2 <= |buf|
    requires buf[offset] == tag && buf[offset + 1] == 0
    ensures TagEffect(buf, offset, len, tag) == Effect(Ok(LegacyValue(ByteAt(buf, offset + 2), [])), offset + 3, 0)
    ensures offset + 2 == |buf| ==> TagEffect(buf, offset, len, tag) == Effect(Ok(0), |buf| + 1, 0)
  {
    assert Octets(buf, offset + 3, 0) == [];
    assert UnsignedBE([0]) == 0 by {
      UnsignedBESnoc([], 0);
      assert [] + [0] == [0];
    }
  }

  /** The cursor stays within one past the end of the buffer, unless a
      string of negative length was read. */
  lemma EffectBounds(buf: seq<Byte>, offset: int, len: int, tag: int)
    requires 0 <= offset <= |buf| + 1
    ensures 0 <= LengthEffect(buf, offset, len).offset <= |buf| + 1
    ensures 0 <= SequenceEffect(buf, offset, len).offset <= |buf| + 1
    ensures 0 <= TagEffect(buf, offset, len, tag).offset <= |buf| + 1
    ensures var s := StringEffect(buf, offset, len);
      (s.result.Ok? && s.len < 0) || 0 <= s.offset <= |buf| + 1
  {
  }

  /** `[0xFF]`, which is -1 in two's complement, reads as -127. */
  lemma MinusOneReadsAsMinus127()
    ensures LegacyValue(0xFF, []) == -127
  {
    UnsignedBESnoc([], 0x7F);
    assert [] + [0x7F] == [0x7F];
  }

  /** The two's-complement content of i in n octets, as the writer emits it,
      reads back as i when i >= 0, and as -(i + 128 * 256^(n-1)) when i < 0. */
  lemma LegacyValueOf(i: int, n: nat)
    requires Fits(i, n)
    ensures var bs := IntBytes(i, n);
      LegacyValue(bs[0], bs[1..]) == if i >= 0 then i else -(i + 128 * Pow256(n - 1))
  {
    var bs := IntBytes(i, n);
    IntBytesRoundTrip(i, n);
    ClearedValue(bs);
    assert Pow256(n) == 256 * Pow256(n - 1);
  }

  // ---------------------------------------------------------------------
  // The reader

  class Reader {
    /** The buffer being parsed (`_buf`; `_size` is |buf|). */
    const buf: seq<Byte>
    /** `_offset`: the position of the next unread octet. */
    var offset: int
    /** `_len`: the length decoded by the last readLength. */
    var len: int

    /** `new Reader(data)` (lib/ber/reader.js:18-31). */
    constructor(data: seq<Byte>)
      ensures buf == data && offset == 0 && len == 0
    {
      buf := data;
      offset := 0;
      len := 0;
    }

    /** The `length` getter. */
    function Length(): int
      reads this
    {
      len
    }

    /** readByte(peek) (lib/ber/reader.js:41-51). */
    method ReadByte(peek: bool) returns (r: Result<Byte>)
      modifies this`offset
      ensures old(offset) >= |buf| ==> r == Err(InsufficientDataError) && offset == old(offset)
      ensures old(offset) < |buf| ==>
        r == Ok(ByteAt(buf, old(offset))) && offset == old(offset) + (if peek then 0 else 1)
    {
      if |buf| - offset < 1 {
        return Err(InsufficientDataError);
      }
      var b := ByteAt(buf, offset);
      if !peek {
        offset := offset + 1;
      }
      return Ok(b);
    }

    /** peek() (lib/ber/reader.js:54-56). */
    method Peek() returns (r: Result<Byte>)
      modifies this`offset
      ensures offset == old(offset)
      ensures r == (if offset >= |buf| then Err(InsufficientDataError) else Ok(ByteAt(buf, offset)))
    {
      r := ReadByte(true);
    }

    /** readLength() (lib/ber/reader.js:69-97). */
    method ReadLength() returns (r: Result<int>)
      modifies this`offset, this`len
      ensures Effect(r, offset, len) == LengthEffect(buf, old(offset), old(len))
    {
      var b := ReadByte(false);
      if b.Err? {
        return Err(b.err);
      }
      var lenB: int := b.value;
      if lenB >= 0x80 {
        lenB := lenB - 0x80;
        if lenB == 0 {
          return Err(InvalidAsn1Error);
        }
        if lenB > 4 {
          return Err(InvalidAsn1Error);
        }
        if |buf| - offset < lenB {
          return Err(InsufficientDataError);
        }
        // the loop of lib/ber/reader.js:87-88, whose increments of the
        // cursor add up to lenB
        var retval := Accumulate(buf, offset, lenB);
        offset := offset + lenB;
        len := retval;
        return Ok(retval);
      }
      len := lenB;
      return Ok(lenB);
    }

    /** readSequence() (lib/ber/reader.js:107-111). */
    method ReadSequence() returns (r: Result<Byte>)
      modifies this`offset, this`len
      ensures Effect(r, offset, len) == SequenceEffect(buf, old(offset), old(len))
    {
      var s := ReadByte(false);
      if s.Err? {
        return s;
      }
      var l := ReadLength();
      if l.Err? {
        return Err(l.err);
      }
      return s;
    }

    /** readString() (lib/ber/reader.js:129-146), returning the octets. */
    method ReadString() returns (r: Result<seq<Byte>>)
      modifies this`offset, this`len
      ensures Effect(r, offset, len) == StringEffect(buf, old(offset), old(len))
    {
      var b := ReadByte(false);
      if b.Err? {
        return Err(b.err);
      }
      if b.value != OctetString {
        return Err(InvalidAsn1Error);
      }
      var l := ReadLength();
      if l.Err? {
        return Err(l.err);
      }
      var n := l.value;
      if n > |buf| - offset {
        return Err(InsufficientDataError);
      }
      if n == 0 {
        return Ok([]);
      }
      var str := NodeSlice(buf, offset, offset + n);
      offset := offset + n;
      return Ok(str);
    }

    /** The loop of lib/ber/reader.js:166-170: the magnitude of the first
        octet's low seven bits a followed by n more octets from at. */
    static method Magnitude(buf: seq<Byte>, a: Byte, at: int, n: nat) returns (value: int)
      requires a < 128 && n <= 3
      ensures value == UnsignedBE([a] + Octets(buf, at, n))
    {
      value := a;
      assert UnsignedBE([a]) == a by {
        UnsignedBESnoc([], a);
        assert [] + [a] == [a];
      }
      assert [a] + Octets(buf, at, 0) == [a];
      var i := 0;
      while i < n
        invariant 0 <= i <= n
        invariant value == UnsignedBE([a] + Octets(buf, at, i))
      {
        var octet := ByteAt(buf, at + i);
        MagnitudeBound(a, Octets(buf, at, i));
        Pow256Values();
        Pow256Monotone(i, 2);
        UnsignedBESnoc([a] + Octets(buf, at, i), octet);
        assert [a] + Octets(buf, at, i) + [octet] == [a] + Octets(buf, at, i + 1);
        // value <<= 8; value |= octet: no wrap-around below 2^23 * 256
        value := ToInt32(value * 256) + octet;
        i := i + 1;
      }
    }

    /** _readTag(tag) (lib/ber/reader.js:149-176). */
    method ReadTag(tag: int) returns (r: Result<int>)
      modifies this`offset, this`len
      ensures Effect(r, offset, len) == TagEffect(buf, old(offset), old(len), tag)
    {
      var b := ReadByte(false);
      if b.Err? {
        return Err(b.err);
      }
      if b.value != tag {
        return Err(InvalidAsn1Error);
      }
      var l := ReadLength();
      if l.Err? {
        return Err(l.err);
      }
      var n := l.value;
      if n > 4 {
        return Err(InvalidAsn1Error);
      }
      if n > |buf| - offset {
        return Err(InsufficientDataError);
      }
      var fb := ByteAt(buf, offset);
      offset := offset + 1;
      var rest := if n > 1 then n - 1 else 0;
      var value := Magnitude(buf, fb % 128, offset, rest);
      offset := offset + rest;
      if fb >= 0x80 {
        value := -value;
      }
      return Ok(value);
    }

    /** readInt() (lib/ber/reader.js:114-116). */
    method ReadInt() returns (r: Result<int>)
      modifies this`offset, this`len
      ensures Effect(r, offset, len) == TagEffect(buf, old(offset), old(len), Integer)
    {
      r := ReadTag(Integer);
    }

    /** readEnumeration() (lib/ber/reader.js:124-126). */
    method ReadEnumeration() returns (r: Result<int>)
      modifies this`offset, this`len
      ensures Effect(r, offset, len) == TagEffect(buf, old(offset), old(len), Enumeration)
    {
      r := ReadTag(Enumeration);
    }

    /** readBoolean() (lib/ber/reader.js:119-121). */
    method ReadBoolean() returns (r: Result<bool>)
      modifies this`offset, this`len
      ensures var s := TagEffect(buf, old(offset), old(len), Boolean);
        r == AsBoolean(s.result) && offset == s.offset && len == s.len
    {
      var v := ReadTag(Boolean);
      r := AsBoolean(v);
    }
  }
}
