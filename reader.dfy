/** The current BER reader of src/ber/reader.ts: a pull parser over an
    immutable buffer with a cursor `offset` and the last decoded length
    `len`. It answers NoData (JavaScript `null`, "insufficient data, retry")
    when the buffer is too short, leaving the cursor where it was, and fails
    with InvalidAsn1Error on malformed input.

    Every reading method is proved against a step function on the buffer
    and the old cursor (SequenceStep, StringStep, TagStep, OidStep); the
    lemmas below are about those functions, and round_trip.dfy proves them
    inverse to the writer. */
module BerReader {
  import opened Arith
  import opened Asn1
  import opened BerEncoding

  // ---------------------------------------------------------------------
  // Length fields (readLength)

  /** A decoded length field: the position just after it, and the length. */
  datatype Field = Field(end: int, length: int)

  /** What readLength finds at position at (src/ber/reader.ts:71-104): NoData
      when the field starts at or beyond the end of the buffer or its long
      form is cut short; InvalidAsn1Error for the indefinite form 0x80 and
      for more than four length octets. The long-form octets are accumulated
      with `(len << 8) + octet`, which is int32 arithmetic, so four octets
      with the top bit set give a negative length. */
  function LengthField(buf: seq<Byte>, at: int): Read<Field> {
    if at >= |buf| then NoData
    else
      var lenB := ByteAt(buf, at);
      if lenB < 0x80 then Got(Field(at + 1, lenB))
      else if lenB == 0x80 || lenB > 0x84 then Fail(InvalidAsn1Error)
      else
        var n := lenB - 0x80;
        if |buf| - (at + 1) < n then NoData
        else Got(Field(at + 1 + n, ToInt32(UnsignedBE(Octets(buf, at + 1, n)))))
  }

  /** readLength's answer: the position after the field. */
  function FieldEnd(f: Read<Field>): Read<int> {
    match f
    case Got(field) => Got(field.end)
    case NoData => NoData
    case Fail(e) => Fail(e)
  }

  /** A decoded field covers one to five octets and never runs past the end
      of the buffer. */
  lemma LengthFieldBounds(buf: seq<Byte>, at: int)
    ensures LengthField(buf, at).Got? ==>
      var f := LengthField(buf, at).value;
      at + 1 <= f.end <= at + 5 && f.end <= |buf|
  {
  }

  /** readLength throws exactly for the initial octets 0x80 (indefinite
      form) and 0x85 to 0xFF (more than four length octets). */
  lemma LengthFieldFails(buf: seq<Byte>, at: int)
    ensures LengthField(buf, at).Fail? <==> 0 <= at < |buf| && (buf[at] == 0x80 || buf[at] > 0x84)
    ensures LengthField(buf, at).Fail? ==> LengthField(buf, at).err == InvalidAsn1Error
  {
  }

  /** The decoded length is negative exactly when four length octets are
      given and the first of them has its top bit set. */
  lemma LengthFieldNegative(buf: seq<Byte>, at: int)
    requires LengthField(buf, at).Got?
    ensures var f := LengthField(buf, at).value;
      f.length < 0 <==> f.end == at + 5 && buf[at + 1] >= 0x80
  {
    var f := LengthField(buf, at).value;
    var n := f.end - (at + 1);
    if ByteAt(buf, at) >= 0x80 {
      var bs := Octets(buf, at + 1, n);
      var u := UnsignedBE(bs);
      Pow256Values();
      LeadBit(bs);
      OctetsFirst(buf, at + 1, n);
      if n == 4 {
        if u >= Two31 {
          Int32Unique(u, u - Two32);
        }
      } else {
        Pow256Monotone(n, 3);
      }
    }
  }

  /** The length field the writer emits is read back: position at holds
      LengthBytes(length) and the reader returns its end and the length. */
  lemma LengthFieldOf(buf: seq<Byte>, at: int, length: nat)
    requires length <= MaxLength && 0 <= at
    requires at + |LengthBytes(length)| <= |buf|
    requires buf[at..at + |LengthBytes(length)|] == LengthBytes(length)
    ensures LengthField(buf, at) == Got(Field(at + |LengthBytes(length)|, length))
  {
    var lb := LengthBytes(length);
    LengthBytesForm(length);
    assert buf[at] == lb[0];
    if |lb| > 1 {
      var n := |lb| - 1;
      OctetsSlice(buf, at + 1, n);
      assert buf[at + 1..at + 1 + n] == lb[1..];
      Pow256Values();
      Pow256Monotone(n, 3);
    }
  }

  /** Any long-form length field with fewer octets left in the buffer than
      its first octet announces, and a field starting at the end of the
      buffer, gives NoData, not an error. */
  lemma LengthFieldShort(buf: seq<Byte>, at: int)
    requires 0 <= at <= |buf|
    requires at < |buf| ==> 0x81 <= buf[at] <= 0x84 && |buf| - (at + 1) < buf[at] - 0x80
    ensures LengthField(buf, at) == NoData
  {
  }

  /** The writer's length octets, cut short by the end of the buffer, give
      NoData. */
  lemma LengthFieldTruncated(buf: seq<Byte>, at: int, length: nat)
    requires length <= MaxLength && 0 <= at <= |buf| < at + |LengthBytes(length)|
    requires buf[at..] == LengthBytes(length)[..|buf| - at]
    ensures LengthField(buf, at) == NoData
  {
    LengthBytesForm(length);
    if at < |buf| {
      assert buf[at] == LengthBytes(length)[0];
    }
  }

  // ---------------------------------------------------------------------
  // The steps of the reading operations

  /** The outcome of a reading operation and the cursor it leaves:
      offset is `_offset`, len is `_len` (the `length` getter). */
  datatype Step<+T> = Step(result: Read<T>, offset: int, len: int)

  /** What peek, the tag comparison and readLength(offset + 1) find at the
      cursor: the tag octet and the length field after it. */
  function Header(buf: seq<Byte>, offset: int, expected: Option<int>): Read<(Byte, Field)> {
    if offset >= |buf| then NoData
    else
      var b := ByteAt(buf, offset);
      if expected.Some? && expected.value != b then Fail(InvalidAsn1Error)
      else
        match LengthField(buf, offset + 1)
        case Got(f) => Got((b, f))
        case NoData => NoData
        case Fail(e) => Fail(e)
  }

  /** readSequence(tag) (src/ber/reader.ts:113-126): the tag octet, with the
      cursor just past the length field and `len` the content length; the
      content itself is left unread. */
  function SequenceStep(buf: seq<Byte>, offset: int, len: int, tag: Option<int>): Step<Byte> {
    match Header(buf, offset, tag)
    case NoData => Step(NoData, offset, len)
    case Fail(e) => Step(Fail(e), offset, len)
    case Got((b, f)) => Step(Got(b), f.end, f.length)
  }

  /** readString's tag: a falsy tag means OctetString. */
  function StringTag(tag: int): int {
    if tag == 0 then OctetString else tag
  }

  /** readString(tag) (src/ber/reader.ts:140-168): the content octets, with
      the cursor after them. Content running past the end of the buffer
      gives NoData with the cursor unmoved (although `len` is updated). */
  function StringStep(buf: seq<Byte>, offset: int, len: int, tag: int): Step<seq<Byte>> {
    match Header(buf, offset, Some(StringTag(tag)))
    case NoData => Step(NoData, offset, len)
    case Fail(e) => Step(Fail(e), offset, len)
    case Got((_, f)) =>
      var n := f.length;
      if n > |buf| - f.end then Step(NoData, offset, n)
      else if n == 0 then Step(Got([]), f.end, n)
      else Step(Got(NodeSlice(buf, f.end, f.end + n)), f.end + n, n)
  }

  /** The value _readTag returns for a content of n octets from at, n at
      most 4: the two's-complement value of the octets, and for an empty
      (or negative) length -1 or 0 after the sign bit of the octet at the
      cursor. */
  function TagValue(buf: seq<Byte>, at: int, n: int): int
    requires n <= 4
  {
    if n >= 1 then SignedBE(Octets(buf, at, n))
    else if ByteAt(buf, at) >= 0x80 then -1 else 0
  }

  /** _readTag(tag) (src/ber/reader.ts:199-232): a content longer than four
      octets throws, one running past the buffer gives NoData, otherwise the
      value and the cursor after the content. */
  function TagStep(buf: seq<Byte>, offset: int, len: int, tag: int): Step<int> {
    match Header(buf, offset, Some(tag))
    case NoData => Step(NoData, offset, len)
    case Fail(e) => Step(Fail(e), offset, len)
    case Got((_, f)) =>
      var n := f.length;
      if n > 4 then Step(Fail(InvalidAsn1Error), offset, n)
      else if n > |buf| - f.end then Step(NoData, offset, n)
      else Step(Got(TagValue(buf, f.end, n)), f.end + (if n > 0 then n else 0), n)
  }

  /** `_readTag(Boolean) === 0 ? false : true`: only the value 0 is false,
      and a NoData result is true. */
  function AsBoolean(v: Read<int>): (r: Read<bool>)
    ensures r == Got(false) <==> v == Got(0)
    ensures v.NoData? ==> r == Got(true)
    ensures r.Fail? <==> v.Fail?
  {
    match v
    case Got(x) => Got(x != 0)
    case NoData => Got(true)
    case Fail(e) => Fail(e)
  }

  // ---------------------------------------------------------------------
  // Object identifiers (readOID)

  /** readOID's text, as its numbers: Arcs(values) is `values.join('.')`. With
      no completed subidentifier the code prints "0.NaN". */
  datatype OidText = Arcs(arcs: seq<int>) | ZeroNaN

  /** The scanner state of readOID's loop: the completed subidentifiers and
      the one being accumulated. */
  datatype ScanState = ScanState(values: seq<int>, pending: int)

  /** One octet of readOID's loop: `value <<= 7; value += byte & 0x7f`, and when
      bit 8 is clear the value is pushed and reset. */
  function ScanStep(s: ScanState, b: Byte): ScanState {
    var v := ToInt32(s.pending * 128) + b % 128;
    if b < 0x80 then ScanState(s.values + [v], 0) else ScanState(s.values, v)
  }

  function ScanFrom(s: ScanState, bs: seq<Byte>): ScanState {
    if bs == [] then s else ScanStep(ScanFrom(s, bs[..|bs| - 1]), bs[|bs| - 1])
  }

  /** The state after readOID's loop over the content octets. */
  function Scan(bs: seq<Byte>): ScanState {
    ScanFrom(ScanState([], 0), bs)
  }

  /** The text readOID builds from the scanned values: the first value v is
      replaced by `(v / 40) >> 0` and `v % 40` (both truncating). */
  function OidValue(bs: seq<Byte>): OidText {
    var values := Scan(bs).values;
    if values == [] then ZeroNaN
    else
      var v := values[0];
      Arcs([ToInt32(TruncDiv(v, 40)), TruncRem(v, 40)] + values[1..])
  }

  /** readOID(tag) (src/ber/reader.ts:170-197): readString with the OID tag
      (a falsy tag means OID), then the subidentifiers of the content. */
  function OidStep(buf: seq<Byte>, offset: int, len: int, tag: int): Step<OidText> {
    var s := StringStep(buf, offset, len, if tag == 0 then OID else tag);
    match s.result
    case Got(bs) => Step(Got(OidValue(bs)), s.offset, s.len)
    case NoData => Step(NoData, s.offset, s.len)
    case Fail(e) => Step(Fail(e), s.offset, s.len)
  }

  lemma {:induction false} ScanConcat(s: ScanState, a: seq<Byte>, b: seq<Byte>)
    ensures ScanFrom(s, a + b) == ScanFrom(ScanFrom(s, a), b)
  {
    if b != [] {
      assert (a + b)[..|a + b| - 1] == a + b[..|b| - 1];
      assert (a + b)[|a + b| - 1] == b[|b| - 1];
      ScanConcat(s, a, b[..|b| - 1]);
    } else {
      assert a + b == a;
    }
  }

  /** The leading groups of a subidentifier accumulate its high part and
      complete nothing. */
  lemma {:induction false} ScanGroups(s: ScanState, y: nat)
    requires s.pending == 0 && y < 0x100_0000
    ensures ScanFrom(s, Groups(y)) == ScanState(s.values, y)
    decreases y
  {
    if y > 0 {
      var q, c := y / 128, y % 128 + 0x80;
      ScanDigit(s.values, y, c);
      ScanGroups(s, q);
      ScanLast(s, Groups(q), c);
    }
  }

  /** A subidentifier below 2^31 is scanned back to its value. */
  lemma ScanBase128(s: ScanState, x: nat)
    requires s.pending == 0 && x < Two31
    ensures ScanFrom(s, Base128(x)) == ScanState(s.values + [x], 0)
  {
    var q := x / 128;
    ScanGroups(s, q);
    ScanLast(s, Groups(q), x % 128);
    ScanDigit(s.values, x, x % 128);
  }

  /** Scanning the octet b, whose low seven bits are those of y, after the
      groups of y / 128 gives y. */
  lemma ScanDigit(values: seq<int>, y: nat, b: Byte)
    requires y < Two31 && b % 128 == y % 128
    ensures b < 0x80 ==> ScanStep(ScanState(values, y / 128), b) == ScanState(values + [y], 0)
    ensures b >= 0x80 ==> ScanStep(ScanState(values, y / 128), b) == ScanState(values, y)
  {
    var q := y / 128;
    assert y == q * 128 + y % 128;
    assert IsInt32(q * 128);
  }

  lemma ScanLast(s: ScanState, bs: seq<Byte>, b: Byte)
    ensures ScanFrom(s, bs + [b]) == ScanStep(ScanFrom(s, bs), b)
  {
    assert (bs + [b])[..|bs|] == bs;
  }

  /** The subidentifiers of arcs below 2^31 are scanned back to the arcs. */
  lemma {:induction false} ScanAll(s: ScanState, arcs: seq<nat>)
    requires s.pending == 0
    requires forall k :: 0 <= k < |arcs| ==> arcs[k] < Two31
    ensures ScanFrom(s, Base128All(arcs)) == ScanState(s.values + arcs, 0)
  {
    if arcs != [] {
      var init := arcs[..|arcs| - 1];
      ScanAll(s, init);
      ScanConcat(s, Base128All(init), Base128(arcs[|arcs| - 1]));
      ScanBase128(ScanState(s.values + init, 0), arcs[|arcs| - 1]);
      assert init + [arcs[|arcs| - 1]] == arcs;
    }
  }

  /** An OID content whose first octet is below 128 and whose other
      subidentifiers are below 2^31 is read as first / 40, first % 40 and
      the other arcs. */
  lemma OidValueOf(first: Byte, rest: seq<nat>)
    requires first < 0x80
    requires forall k :: 0 <= k < |rest| ==> rest[k] < Two31
    ensures OidValue([first] + Base128All(rest)) == Arcs([first / 40, first % 40] + rest)
  {
    ScanContent(first, rest);
    OidValueScanned([first] + Base128All(rest), first, rest);
  }

  lemma OidValueScanned(bs: seq<Byte>, first: Byte, rest: seq<int>)
    requires Scan(bs).values == [first] + rest
    ensures OidValue(bs) == Arcs([first / 40, first % 40] + rest)
  {
    var values := Scan(bs).values;
    assert values[0] == first && values[1..] == rest;
    var q := first / 40;
    assert 0 <= q < 7;
    assert TruncDiv(first, 40) == q && ToInt32(q) == q;
  }

  lemma ScanContent(first: Byte, rest: seq<nat>)
    requires first < 0x80
    requires forall k :: 0 <= k < |rest| ==> rest[k] < Two31
    ensures Scan([first] + Base128All(rest)) == ScanState([first] + rest, 0)
  {
    var s0, s1 := ScanState([], 0), ScanState([first], 0);
    ScanConcat(s0, [first], Base128All(rest));
    ScanFirst(first);
    ScanAll(s1, rest);
  }

  lemma ScanFirst(first: Byte)
    requires first < 0x80
    ensures ScanFrom(ScanState([], 0), [first]) == ScanState([first], 0)
  {
    assert [first][..0] == [];
  }

  // ---------------------------------------------------------------------
  // The cursor stays inside the buffer

  lemma SequenceStepBounds(buf: seq<Byte>, offset: int, len: int, tag: Option<int>)
    requires 0 <= offset <= |buf|
    ensures 0 <= SequenceStep(buf, offset, len, tag).offset <= |buf|
  {
    LengthFieldBounds(buf, offset + 1);
  }

  lemma TagStepBounds(buf: seq<Byte>, offset: int, len: int, tag: int)
    requires 0 <= offset <= |buf|
    ensures 0 <= TagStep(buf, offset, len, tag).offset <= |buf|
  {
    LengthFieldBounds(buf, offset + 1);
  }

  /** A null answer ("insufficient data, retry") never moves the cursor, in
      every reading operation. */
  lemma NoDataKeepsCursor(buf: seq<Byte>, offset: int, len: int, tag: int, expected: Option<int>)
    ensures SequenceStep(buf, offset, len, expected).result.NoData? ==>
      SequenceStep(buf, offset, len, expected).offset == offset
    ensures StringStep(buf, offset, len, tag).result.NoData? ==> StringStep(buf, offset, len, tag).offset == offset
    ensures TagStep(buf, offset, len, tag).result.NoData? ==> TagStep(buf, offset, len, tag).offset == offset
    ensures OidStep(buf, offset, len, tag).result.NoData? ==> OidStep(buf, offset, len, tag).offset == offset
  {
  }

  /** readString keeps the cursor inside the buffer unless it read a negative
      length (see NegativeLengthRewinds). */
  lemma StringStepBounds(buf: seq<Byte>, offset: int, len: int, tag: int)
    requires 0 <= offset <= |buf|
    ensures var s := StringStep(buf, offset, len, tag);
      (s.result.Got? && s.len < 0) || 0 <= s.offset <= |buf|
  {
    LengthFieldBounds(buf, offset + 1);
  }

  lemma OidStepBounds(buf: seq<Byte>, offset: int, len: int, tag: int)
    requires 0 <= offset <= |buf|
    ensures var s := OidStep(buf, offset, len, tag);
      (s.result.Got? && s.len < 0) || 0 <= s.offset <= |buf|
  {
    StringStepBounds(buf, offset, len, if tag == 0 then OID else tag);
  }

  /** A four-octet length of 0x80000000 decodes to -2^31; readString then
      returns an empty value and moves the cursor far below 0. */
  lemma NegativeLengthRewinds()
    ensures StringStep([OctetString, 0x84, 0x80, 0, 0, 0], 0, 0, 0) == Step(Got([]), 6 - Two31, -Two31)
  {
    var buf: seq<Byte> := [OctetString, 0x84, 0x80, 0, 0, 0];
    OctetsSlice(buf, 2, 4);
    assert Octets(buf, 2, 4) == [0x80, 0, 0, 0];
    SignBitValue();
    Int32Unique(Two31, -Two31);
  }

  lemma SignBitValue()
    ensures UnsignedBE([0x80, 0, 0, 0]) == Two31
  {
    UnsignedBESnoc([], 0x80);
    assert [0x80] == [] + [0x80];
    UnsignedBESnoc([0x80], 0);
    assert [0x80, 0] == [0x80] + [0];
    UnsignedBESnoc([0x80, 0], 0);
    assert [0x80, 0, 0] == [0x80, 0] + [0];
    UnsignedBESnoc([0x80, 0, 0], 0);
    assert [0x80, 0, 0, 0] == [0x80, 0, 0] + [0];
  }

  // ---------------------------------------------------------------------
  // The value of an integer content

  /** _readTag's closing correction: the int32 accumulator of one to four
      octets, less `1 << (8 * n)` when the sign bit is set and n != 4, then
      `>> 0`, is the two's-complement value of the octets. A four-octet
      negative needs no correction: the accumulator has already wrapped. */
  lemma TagFixup(bs: seq<Byte>)
    requires 1 <= |bs| <= 4
    ensures ToInt32(ToInt32(UnsignedBE(bs)) - (if bs[0] >= 0x80 && |bs| != 4 then Pow256(|bs|) else 0))
            == SignedBE(bs)
  {
    var n, u := |bs|, UnsignedBE(bs);
    Pow256Values();
    LeadBit(bs);
    if n == 4 {
      if u >= Two31 {
        Int32Unique(u, u - Two32);
      }
    } else {
      Pow256Monotone(n, 3);
      Pow256Monotone(n - 1, 2);
    }
  }

  // ---------------------------------------------------------------------
  // The reader

  class Reader {
    /** The buffer being parsed (`_buf`; `_size` is |buf|). */
    const buf: seq<Byte>
    /** `_offset`: the position of the next unread octet. */
    var offset: int
    /** `_len`: the length decoded by the last readLength. */
    var len: int

    /** `new Reader(data)` (src/ber/reader.ts:13-19). */
    constructor(data: seq<Byte>)
      ensures buf == data && offset == 0 && len == 0
    {
      buf := data;
      offset := 0;
      len := 0;
    }

    /** The cursor is inside the buffer. */
    predicate Valid()
      reads this
    {
      0 <= offset <= |buf|
    }

    /** The `length` getter. */
    function Length(): int
      reads this
    {
      len
    }

    /** The `offset` getter. */
    function Offset(): int
      reads this
    {
      offset
    }

    /** The `remain` getter. */
    function Remain(): int
      reads this
    {
      |buf| - offset
    }

    /** The `buffer` getter: `_buf.slice(_offset)`. */
    function Buffer(): seq<Byte>
      reads this
    {
      NodeSlice(buf, offset, |buf|)
    }

    /** With the cursor inside the buffer, `buffer` is exactly the unread
        octets and `remain` is their number. */
    lemma UnreadOctets()
      requires Valid()
      ensures Buffer() == buf[offset..] && |Buffer()| == Remain()
      ensures 0 <= Remain() <= |buf|
    {
    }

    /** readByte(peek) (src/ber/reader.ts:44-54). */
    method ReadByte(peek: bool) returns (r: Read<Byte>)
      modifies this`offset
      ensures old(offset) >= |buf| ==> r == NoData && offset == old(offset)
      ensures old(offset) < |buf| ==>
        r == Got(ByteAt(buf, old(offset))) && offset == old(offset) + (if peek then 0 else 1)
    {
      if |buf| - offset < 1 {
        return NoData;
      }
      var b := ByteAt(buf, offset);
      if !peek {
        offset := offset + 1;
      }
      return Got(b);
    }

    /** peek() (src/ber/reader.ts:56-58). */
    method Peek() returns (r: Read<Byte>)
      modifies this`offset
      ensures offset == old(offset)
      ensures r == (if offset >= |buf| then NoData else Got(ByteAt(buf, offset)))
    {
      r := ReadByte(true);
    }

    /** readLength(at) (src/ber/reader.ts:71-104); None reads at the cursor.
        The cursor never moves; `len` changes only when a field is found. */
    method ReadLength(at: Option<int>) returns (r: Read<int>)
      modifies this`len
      ensures var f := LengthField(buf, if at.Some? then at.value else offset);
        r == FieldEnd(f) && len == (if f.Got? then f.value.length else old(len))
    {
      var o := if at.Some? then at.value else offset;
      ghost var start := o;
      if o >= |buf| {
        return NoData;
      }
      var lenB: int := ByteAt(buf, o);
      o := o + 1;
      if lenB >= 0x80 {
        lenB := lenB - 0x80;
        if lenB == 0 {
          return Fail(InvalidAsn1Error);
        }
        if lenB > 4 {
          return Fail(InvalidAsn1Error);
        }
        if |buf| - o < lenB {
          return NoData;
        }
        len := Accumulate(buf, o, lenB);
        o := o + lenB;
        assert LengthField(buf, start) == Got(Field(o, len));
      } else {
        len := lenB;
        assert LengthField(buf, start) == Got(Field(o, len));
      }
      return Got(o);
    }

    /** readSequence(tag) (src/ber/reader.ts:113-126); None accepts any tag. */
    method ReadSequence(tag: Option<int>) returns (r: Read<Byte>)
      modifies this`offset, this`len
      ensures Step(r, offset, len) == SequenceStep(buf, old(offset), old(len), tag)
    {
      var s := Peek();
      if s.NoData? {
        return NoData;
      }
      if tag.Some? && tag.value != s.value {
        return Fail(InvalidAsn1Error);
      }
      var o := ReadLength(Some(offset + 1));
      if o.NoData? {
        return NoData;
      }
      if o.Fail? {
        return Fail(o.err);
      }
      offset := o.value;
      return s;
    }

    /** readString(tag) (src/ber/reader.ts:140-168), returning the content
        octets (`retbuf`); 0 stands for an omitted tag. */
    method ReadString(tag: int := 0) returns (r: Read<seq<Byte>>)
      modifies this`offset, this`len
      ensures Step(r, offset, len) == StringStep(buf, old(offset), old(len), tag)
    {
      var t := if tag == 0 then OctetString as int else tag;
      var b := Peek();
      if b.NoData? {
        return NoData;
      }
      if b.value != t {
        return Fail(InvalidAsn1Error);
      }
      var o := ReadLength(Some(offset + 1));
      if o.NoData? {
        return NoData;
      }
      if o.Fail? {
        return Fail(o.err);
      }
      if len > |buf| - o.value {
        return NoData;
      }
      offset := o.value;
      if len == 0 {
        return Got([]);
      }
      var str := NodeSlice(buf, offset, offset + len);
      offset := offset + len;
      return Got(str);
    }

    /** readOID(tag) (src/ber/reader.ts:170-197); 0 stands for an omitted tag. */
    method ReadOID(tag: int := 0) returns (r: Read<OidText>)
      modifies this`offset, this`len
      ensures Step(r, offset, len) == OidStep(buf, old(offset), old(len), tag)
    {
      var t := if tag == 0 then OID as int else tag;
      var b := ReadString(t);
      if b.NoData? {
        return NoData;
      }
      if b.Fail? {
        return Fail(b.err);
      }
      var bytes := b.value;
      var values: seq<int> := [];
      var value := 0;
      for i := 0 to |bytes|
        invariant ScanState(values, value) == Scan(bytes[..i])
        modifies {}
      {
        var byte := bytes[i];
        assert bytes[..i + 1][..i] == bytes[..i];
        value := ToInt32(value * 128);
        value := value + byte % 128;
        if byte < 0x80 {
          values := values + [value];
          value := 0;
        }
      }
      assert bytes[..|bytes|] == bytes;
      assert values == Scan(bytes).values;
      if values == [] {
        return Got(ZeroNaN);
      }
      ghost var scanned := values;
      value := values[0];
      values := values[1..];
      values := [TruncRem(value, 40)] + values;
      values := [ToInt32(TruncDiv(value, 40))] + values;
      assert values == [ToInt32(TruncDiv(scanned[0], 40)), TruncRem(scanned[0], 40)] + scanned[1..];
      return Got(Arcs(values));
    }

    /** _readTag(tag) (src/ber/reader.ts:199-232). */
    method ReadTag(tag: int) returns (r: Read<int>)
      modifies this`offset, this`len
      ensures Step(r, offset, len) == TagStep(buf, old(offset), old(len), tag)
    {
      var b := Peek();
      if b.NoData? {
        return NoData;
      }
      if b.value != tag {
        return Fail(InvalidAsn1Error);
      }
      var o := ReadLength(Some(offset + 1));
      if o.NoData? {
        return NoData;
      }
      if o.Fail? {
        return Fail(o.err);
      }
      if len > 4 {
        return Fail(InvalidAsn1Error);
      }
      if len > |buf| - o.value {
        return NoData;
      }
      offset := o.value;
      var value := TagContent(buf, offset, len);
      offset := offset + (if len > 0 then len else 0);
      return Got(value);
    }

    /** src/ber/reader.ts:219-231: the value of the n content octets at the
        cursor (the loop's increments of the cursor add up to n, or to 0 for
        a negative length). */
    static method TagContent(buf: seq<Byte>, at: int, n: int) returns (value: int)
      requires n <= 4
      ensures value == TagValue(buf, at, n)
    {
      var fb := ByteAt(buf, at);
      var i := if n > 0 then n else 0;
      value := Accumulate(buf, at, i);
      if i >= 1 {
        OctetsFirst(buf, at, i);
        TagFixup(Octets(buf, at, i));
      }
      if fb >= 0x80 && i != 4 {
        // value -= 1 << (i * 8)
        value := value - Pow256(i);
      }
      value := ToInt32(value);
    }

    /** readInt() (src/ber/reader.ts:128-130). */
    method ReadInt() returns (r: Read<int>)
      modifies this`offset, this`len
      ensures Step(r, offset, len) == TagStep(buf, old(offset), old(len), Integer)
    {
      r := ReadTag(Integer);
    }

    /** readEnumeration() (src/ber/reader.ts:136-138). */
    method ReadEnumeration() returns (r: Read<int>)
      modifies this`offset, this`len
      ensures Step(r, offset, len) == TagStep(buf, old(offset), old(len), Enumeration)
    {
      r := ReadTag(Enumeration);
    }

    /** readBoolean() (src/ber/reader.ts:132-134). */
    method ReadBoolean() returns (r: Read<bool>)
      modifies this`offset, this`len
      ensures var s := TagStep(buf, old(offset), old(len), Boolean);
        r == AsBoolean(s.result) && offset == s.offset && len == s.len
    {
      var v := ReadTag(Boolean);
      r := AsBoolean(v);
    }
  }
}
