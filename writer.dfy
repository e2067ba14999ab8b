/** The BER writer of src/ber/writer.ts (lib/ber/writer.js is its compiled
    form, with the same logic line for line). A Writer appends TLV records to
    a growable buffer; sequences reserve three length octets when they start
    and are backpatched with the minimal length when they end. */
module BerWriter {
  import opened Arith
  import opened Asn1
  import opened BerEncoding

  /** The default tag of startSequence: Sequence | Constructor (the bits are disjoint). */
  const SequenceTag: Byte := Sequence + Constructor

  /** The open-sequence stack: each entry is the offset of a frame's three
      reserved length octets, just after its tag. Frames lie at increasing
      offsets with at least the tag octet between two of them, and each
      frame's reserved octets lie below the cursor. */
  ghost predicate FramesValid(frames: seq<nat>, offset: nat) {
    && (forall k :: 0 <= k < |frames| ==> 1 <= frames[k] && frames[k] + 3 <= offset)
    && (forall i, j :: 0 <= i < j < |frames| ==> frames[i] + 3 < frames[j])
  }

  /** Closing the innermost frame keeps the others valid for any cursor
      past the closed frame's tag. */
  lemma FramesPop(frames: seq<nat>, offset: nat)
    requires FramesValid(frames, offset) && frames != []
    ensures forall o: nat {:trigger FramesValid(frames[..|frames| - 1], o)} ::
      o > frames[|frames| - 1] ==> FramesValid(frames[..|frames| - 1], o)
  {
  }

  /** One TLV record with a definite length. */
  function Tlv(tag: Byte, content: seq<Byte>): (r: seq<Byte>)
    requires |content| <= MaxLength
    ensures |r| == 1 + |LengthBytes(|content|)| + |content|
  {
    [tag] + LengthBytes(|content|) + content
  }

  /** The octets `(v | 0x80) & 0xFF`: the low seven bits of v with bit 8 set. */
  function ContinuationOctet(v: nat): Byte {
    v % 0x80 + 0x80
  }

  /** The content octets writeOID emits for arcs a0.a1.a2...: the raw byte
      a0*40+a1 (the buffer keeps its low octet) followed by the base-128
      subidentifiers of the remaining arcs. */
  function OidContent(arcs: seq<nat>): seq<Byte>
    requires |arcs| >= 2
  {
    [ToUint8(arcs[0] * 40 + arcs[1])] + Base128All(arcs[2..])
  }

  /** The encodings of a list of strings, one after another. */
  function StringsTlv(strings: seq<seq<Byte>>, tag: Byte): seq<Byte>
    requires forall k :: 0 <= k < |strings| ==> |strings[k]| <= MaxLength
  {
    if strings == [] then []
    else StringsTlv(strings[..|strings| - 1], tag) + Tlv(tag, strings[|strings| - 1])
  }

  lemma AppendAssoc(a: seq<Byte>, b: seq<Byte>, c: seq<Byte>)
    ensures a + b + c == a + (b + c)
  {
  }

  /** The octets a Buffer stores for a sequence of numbers. */
  function Uint8s(bytes: seq<int>): (r: seq<Byte>)
    ensures |r| == |bytes| && forall j :: 0 <= j < |bytes| ==> r[j] == ToUint8(bytes[j])
  {
    seq(|bytes|, j requires 0 <= j < |bytes| => ToUint8(bytes[j]))
  }

  /** Appending the next element of s extends the prefix written so far. */
  lemma AppendNext(c: seq<Byte>, s: seq<Byte>, k: nat)
    requires k < |s|
    ensures c + s[..k] + [s[k]] == c + s[..k + 1]
  {
    assert s[..k + 1] == s[..k] + [s[k]];
  }

  lemma AppendTlv(c: seq<Byte>, tag: Byte, s: seq<Byte>)
    requires |s| <= MaxLength
    ensures c + [tag] + LengthBytes(|s|) + s == c + Tlv(tag, s)
    ensures s == [] ==> c + [tag] + LengthBytes(|s|) == c + Tlv(tag, s)
  {
    assert c + [tag] + LengthBytes(|s|) + s == c + ([tag] + LengthBytes(|s|) + s);
  }

  /** The numbers writeOID collects are OidContent once stored as octets. */
  lemma OidBytes(arcs: seq<nat>, bytes: seq<int>)
    requires |arcs| >= 2 && bytes == [arcs[0] * 40 + arcs[1]] + Base128All(arcs[2..|arcs|])
    ensures |bytes| == |OidContent(arcs)|
    ensures forall j :: 0 <= j < |bytes| ==> ToUint8(bytes[j]) == OidContent(arcs)[j]
  {
    assert arcs[2..|arcs|] == arcs[2..];
  }

  lemma StringsTlvSnoc(strings: seq<seq<Byte>>, k: nat)
    requires k < |strings|
    requires forall j :: 0 <= j <= k ==> |strings[j]| <= MaxLength
    ensures StringsTlv(strings[..k + 1], OctetString) == StringsTlv(strings[..k], OctetString) + Tlv(OctetString, strings[k])
  {
    assert strings[..k + 1][..k] == strings[..k];
  }

  class Writer {
    /** _buf; its length is _size. */
    var buf: array<Byte>
    /** _offset: the number of octets written. */
    var offset: nat
    /** _seq: where the reserved length octets of each open sequence start. */
    var frames: seq<nat>
    /** The growth factor of the merged options. */
    const growthFactor: nat

    ghost predicate Valid()
      reads this
    {
      offset <= buf.Length && growthFactor >= 1 && FramesValid(frames, offset)
    }

    /** The octets written so far, [0, _offset) of the buffer. */
    function Contents(): (r: seq<Byte>)
      reads this, buf
      requires Valid()
      ensures |r| == offset
    {
      buf[..offset]
    }

    /** new Writer(options): the options are merged over the defaults
        {size: 1024, growthFactor: 8}, where a value of 0 counts as absent. */
    constructor (size: nat, growthFactor: nat)
      ensures Valid() && fresh(buf)
      ensures buf.Length == (if size == 0 then 1024 else size)
      ensures this.growthFactor == (if growthFactor == 0 then 8 else growthFactor)
      ensures offset == 0 && frames == []
    {
      this.growthFactor := if growthFactor == 0 then 8 else growthFactor;
      buf := new Byte[if size == 0 then 1024 else size];
      offset := 0;
      frames := [];
    }

    /** The `buffer` getter: an error while a sequence is open, else exactly
        the octets written. */
    function Buffer(): (r: Result<seq<Byte>>)
      reads this, buf
      requires Valid()
      ensures r.Err? <==> frames != []
      ensures r.Err? ==> r.err == InvalidAsn1Error
      ensures r.Ok? ==> r.value == Contents() && |r.value| == offset
    {
      if |frames| > 0 then Err(InvalidAsn1Error) else Ok(buf[..offset])
    }

    /** _ensure(len): make room for len more octets, reallocating to
        _size * growthFactor (plus len if that is still short) and copying the
        written prefix. assert.ok(len) throws when len is 0. */
    method Ensure(len: nat) returns (r: Outcome)
      requires Valid()
      modifies this`buf
      ensures Valid() && Contents() == old(Contents())
      ensures buf == old(buf) || fresh(buf)
      ensures len == 0 ==> r == Throw(AssertionError) && buf == old(buf)
      ensures len > 0 ==> r == Done && buf.Length - offset >= len
      ensures old(buf.Length) - offset >= len ==> buf == old(buf)
      ensures len > 0 && old(buf.Length) - offset < len ==>
        var grown := old(buf.Length) * growthFactor;
        buf.Length == if grown - offset < len then grown + len else grown
    {
      if len == 0 {
        return Throw(AssertionError);
      }
      if buf.Length - offset < len {
        var sz := buf.Length * growthFactor;
        if sz - offset < len {
          sz := sz + len;
        }
        var grown := new Byte[sz];
        forall k | 0 <= k < offset {
          grown[k] := buf[k];
        }
        buf := grown;
      }
      r := Done;
    }

    method WriteByte(b: int)
      requires Valid()
      modifies this, buf
      ensures Valid() && frames == old(frames) && (buf == old(buf) || fresh(buf))
      ensures Contents() == old(Contents()) + [ToUint8(b)]
    {
      var _ := Ensure(1);
      buf[offset] := ToUint8(b);
      offset := offset + 1;
    }

    /** writeLength: the minimal definite length octets; lengths above
        0xFFFFFF throw (after the buffer has been made to fit four octets).
        A negative length takes the short-form branch, and the buffer keeps
        its low octet. */
    method WriteLength(len: int) returns (r: Outcome)
      requires Valid()
      modifies this, buf
      ensures Valid() && frames == old(frames) && (buf == old(buf) || fresh(buf))
      ensures len < 0 ==> r == Done && Contents() == old(Contents()) + [ToUint8(len)]
      ensures 0 <= len <= MaxLength ==> r == Done && Contents() == old(Contents()) + LengthBytes(len)
      ensures len > MaxLength ==> r == Throw(InvalidAsn1Error) && Contents() == old(Contents())
    {
      var _ := Ensure(4);
      if len > MaxLength {
        return Throw(InvalidAsn1Error);
      }
      if len < 0 {
        AppendOctets([ToUint8(len)]);
        return Done;
      }
      LengthOctets(len);
      if len <= 0x7F {
        AppendOctets([len]);
      } else if len <= 0xFF {
        AppendOctets([0x81, len]);
      } else if len <= 0xFFFF {
        AppendOctets([0x82, ToUint8(len / 0x100), ToUint8(len)]);
      } else {
        AppendOctets([0x83, ToUint8(len / 0x1_0000), ToUint8(len / 0x100), ToUint8(len)]);
      }
      r := Done;
    }

    /** writeInt(i, tag): the tag, the content size and the minimal
        two's-complement content octets of the int32 i. */
    method WriteInt(i: int, tag: int := Integer)
      requires Valid() && IsInt32(i)
      modifies this, buf
      ensures Valid() && frames == old(frames) && (buf == old(buf) || fresh(buf))
      ensures Contents() == old(Contents()) + [ToUint8(tag), MinIntSize(i)] + IntBytes(i, MinIntSize(i))
    {
      var sz, v := IntSize(i);
      // The `sz > 4` throw of the source cannot happen.
      assert sz <= 4;
      var _ := Ensure(2 + sz);
      AppendOctets([ToUint8(tag), sz]);
      EmitInt(i, sz, v);
    }

    /** The output loop of writeInt (`while (sz-- > 0)`): the top octet of the
        register, then the register shifted left by 8, n times. */
    method EmitInt(i: int, n: nat, v0: int)
      requires Valid() && 1 <= n <= 4 && v0 == ToInt32(i * Pow256(4 - n))
      modifies this, buf
      ensures Valid() && frames == old(frames) && (buf == old(buf) || fresh(buf))
      ensures Contents() == old(Contents()) + IntBytes(i, n)
    {
      ghost var before := Contents();
      ghost var octets := IntBytes(i, n);
      var sz, v := n, v0;
      while sz > 0
        invariant 0 <= sz <= n
        invariant v == ToInt32(i * Pow256(4 - sz))
        invariant Valid() && frames == old(frames) && (buf == old(buf) || fresh(buf))
        invariant Contents() == before + octets[..n - sz]
      {
        ghost var k, written := n - sz, Contents();
        EmitStep(i, n, sz, v);
        var top := ToUint32(v) / 0x100_0000;  // (v & 0xff000000) >>> 24
        assert ToUint8(top) == octets[k];
        WriteByte(top);
        AppendNext(before, octets, k);
        assert Contents() == written + [octets[k]];
        sz := sz - 1;
        v := ToInt32(v * 256);  // v <<= 8
      }
      assert octets[..n] == octets;
    }

    /** The size loop of writeInt: shift the int32 register left by 8 while
        its top nine bits agree, to at least one octet. */
    static method IntSize(i: int) returns (sz: nat, v: int)
      requires IsInt32(i)
      ensures sz == MinIntSize(i) && v == i * Pow256(4 - sz) && IsInt32(v)
    {
      v := i;
      sz := 4;
      // (v & 0xff800000) is 0 or 0xff800000 exactly when the top nine bits of v agree.
      while -0x80_0000 <= v < 0x80_0000 && sz > 1
        invariant 1 <= sz <= 4 && MinIntSize(i) <= sz
        invariant v == i * Pow256(4 - sz) && IsInt32(v)
      {
        SizeStep(i, sz, v);
        sz := sz - 1;
        v := ToInt32(v * 256);  // v <<= 8
      }
      SizeFound(i, sz, v);
    }

    method WriteNull()
      requires Valid()
      modifies this, buf
      ensures Valid() && frames == old(frames) && (buf == old(buf) || fresh(buf))
      ensures Contents() == old(Contents()) + [Null, 0x00]
    {
      WriteByte(Null);
      WriteByte(0x00);
    }

    method WriteEnumeration(i: int, tag: int := Enumeration)
      requires Valid() && IsInt32(i)
      modifies this, buf
      ensures Valid() && frames == old(frames) && (buf == old(buf) || fresh(buf))
      ensures Contents() == old(Contents()) + [ToUint8(tag), MinIntSize(i)] + IntBytes(i, MinIntSize(i))
    {
      WriteInt(i, tag);
    }

    method WriteBoolean(b: bool, tag: int := Boolean)
      requires Valid()
      modifies this, buf
      ensures Valid() && frames == old(frames) && (buf == old(buf) || fresh(buf))
      ensures Contents() == old(Contents()) + [ToUint8(tag), 0x01, if b then 0xFF else 0x00]
    {
      var _ := Ensure(3);
      AppendOctets([ToUint8(tag), 0x01, if b then 0xFF else 0x00]);
    }

    /** Copies octets at the cursor, as Buffer.write and Buffer.copy do. */
    method AppendOctets(s: seq<Byte>)
      requires Valid() && buf.Length - offset >= |s|
      modifies this`offset, buf
      ensures Valid() && Contents() == old(Contents()) + s
    {
      forall k | 0 <= k < |s| {
        buf[offset + k] := s[k];
      }
      offset := offset + |s|;
    }

    /** writeString(s, tag): s is given as its UTF-8 octets. A length above
        0xFFFFFF throws after the tag has been written. */
    method WriteString(s: seq<Byte>, tag: int := OctetString) returns (r: Outcome)
      requires Valid()
      modifies this, buf
      ensures Valid() && frames == old(frames) && (buf == old(buf) || fresh(buf))
      ensures |s| <= MaxLength ==> r == Done && Contents() == old(Contents()) + Tlv(ToUint8(tag), s)
      ensures |s| > MaxLength ==> r == Throw(InvalidAsn1Error) && Contents() == old(Contents()) + [ToUint8(tag)]
    {
      ghost var c := Contents();
      WriteByte(tag);
      r := WriteLength(|s|);
      if r.Throw? {
        return;
      }
      AppendTlv(c, ToUint8(tag), s);
      if |s| > 0 {
        var _ := Ensure(|s|);
        AppendOctets(s);
      }
    }

    /** writeBuffer(data, tag). For an empty buffer the source calls
        _ensure(0), whose assert.ok(0) throws after [tag, 0] is written. */
    method WriteBuffer(data: seq<Byte>, tag: int) returns (r: Outcome)
      requires Valid()
      modifies this, buf
      ensures Valid() && frames == old(frames) && (buf == old(buf) || fresh(buf))
      ensures 0 < |data| <= MaxLength ==> r == Done && Contents() == old(Contents()) + Tlv(ToUint8(tag), data)
      ensures |data| == 0 ==> r == Throw(AssertionError) && Contents() == old(Contents()) + [ToUint8(tag), 0x00]
      ensures |data| > MaxLength ==> r == Throw(InvalidAsn1Error) && Contents() == old(Contents()) + [ToUint8(tag)]
    {
      ghost var c := Contents();
      WriteByte(tag);
      r := WriteLength(|data|);
      if r.Throw? {
        return;
      }
      AppendTlv(c, ToUint8(tag), data);
      r := Ensure(|data|);
      if r.Throw? {
        return;
      }
      AppendOctets(data);
    }

    /** writeStringArray: writeString of each string in turn, stopping at the
        first that throws. */
    method WriteStringArray(strings: seq<seq<Byte>>) returns (r: Outcome, ghost k: nat)
      requires Valid()
      modifies this, buf
      ensures Valid() && frames == old(frames) && (buf == old(buf) || fresh(buf))
      ensures r == Done <==> forall k :: 0 <= k < |strings| ==> |strings[k]| <= MaxLength
      ensures r == Done ==> Contents() == old(Contents()) + StringsTlv(strings, OctetString)
      ensures r.Throw? ==>
        && r == Throw(InvalidAsn1Error) && k < |strings| && |strings[k]| > MaxLength
        && (forall j :: 0 <= j < k ==> |strings[j]| <= MaxLength)
        && Contents() == old(Contents()) + StringsTlv(strings[..k], OctetString) + [OctetString]
    {
      var i := 0;
      while i < |strings|
        invariant 0 <= i <= |strings|
        invariant Valid() && frames == old(frames) && (buf == old(buf) || fresh(buf))
        invariant forall j :: 0 <= j < i ==> |strings[j]| <= MaxLength
        invariant Contents() == old(Contents()) + StringsTlv(strings[..i], OctetString)
      {
        r := WriteString(strings[i]);
        if r.Throw? {
          k := i;
          return;
        }
        StringsTlvSnoc(strings, i);
        AppendAssoc(old(Contents()), StringsTlv(strings[..i], OctetString), Tlv(OctetString, strings[i]));
        i := i + 1;
      }
      assert strings[..i] == strings;
      r, k := Done, i;
    }

    /** _encodeOctet(bytes, octet): push the base-128 subidentifier of octet. */
    static method EncodeOctet(bytes: seq<int>, octet: nat) returns (pushed: seq<int>)
      requires octet < Two32
      ensures pushed == bytes + Base128(octet)
    {
      if octet < 128 {
        assert Base128(octet) == [octet];
        pushed := bytes + [octet];
      } else if octet < 16384 {
        GroupsTwo(octet / 0x80);
        pushed := bytes + [ContinuationOctet(octet / 0x80), octet % 0x80];
      } else if octet < 2097152 {
        GroupsThree(octet / 0x80);
        Breakdown(octet, 0x80, 0x80);
        pushed := bytes + [ContinuationOctet(octet / 0x4000), ContinuationOctet(octet / 0x80), octet % 0x80];
      } else if octet < 268435456 {
        GroupsFour(octet / 0x80);
        Breakdown(octet, 0x80, 0x80);
        Breakdown(octet, 0x80, 0x4000);
        pushed := bytes + [ContinuationOctet(octet / 0x20_0000), ContinuationOctet(octet / 0x4000),
                           ContinuationOctet(octet / 0x80), octet % 0x80];
      } else {
        GroupsFive(octet / 0x80);
        Breakdown(octet, 0x80, 0x80);
        Breakdown(octet, 0x80, 0x4000);
        Breakdown(octet, 0x80, 0x20_0000);
        pushed := bytes + [ContinuationOctet(octet / 0x1000_0000), ContinuationOctet(octet / 0x20_0000),
                           ContinuationOctet(octet / 0x4000), ContinuationOctet(octet / 0x80), octet % 0x80];
      }
    }

    /** The numbers writeOID collects: arc0 * 40 + arc1, then _encodeOctet
        of each further arc in turn. */
    static method OidNumbers(arcs: seq<nat>) returns (bytes: seq<int>)
      requires |arcs| >= 2 && forall k :: 2 <= k < |arcs| ==> arcs[k] < Two32
      ensures bytes == [arcs[0] * 40 + arcs[1]] + Base128All(arcs[2..|arcs|])
    {
      bytes := [arcs[0] * 40 + arcs[1]];
      for k := 2 to |arcs|
        invariant bytes == [arcs[0] * 40 + arcs[1]] + Base128All(arcs[2..k])
      {
        assert arcs[2..k + 1][..k - 2] == arcs[2..k];
        bytes := EncodeOctet(bytes, arcs[k]);
      }
    }

    /** writeOID(arcs, tag): OID strings that do not have at least four
        dot-separated digit groups are rejected; otherwise the tag, the length
        and OidContent(arcs). */
    method WriteOID(arcs: seq<nat>, tag: int := OID) returns (r: Outcome)
      requires Valid()
      requires forall k :: 2 <= k < |arcs| ==> arcs[k] < Two32
      modifies this, buf
      ensures Valid() && frames == old(frames) && (buf == old(buf) || fresh(buf))
      ensures |arcs| < 4 ==> r == Throw(OidSyntaxError) && Contents() == old(Contents())
      ensures |arcs| >= 4 && |OidContent(arcs)| <= MaxLength ==>
        r == Done && Contents() == old(Contents()) + Tlv(ToUint8(tag), OidContent(arcs))
      ensures |arcs| >= 4 && |OidContent(arcs)| > MaxLength ==>
        r == Throw(InvalidAsn1Error) && Contents() == old(Contents()) + [ToUint8(tag)]
    {
      if |arcs| < 4 {
        return Throw(OidSyntaxError);
      }
      ghost var c0 := Contents();
      var bytes := OidNumbers(arcs);
      OidBytes(arcs, bytes);
      ghost var content := OidContent(arcs);
      assert Uint8s(bytes) == content;
      var _ := Ensure(2 + |bytes|);
      WriteByte(tag);
      r := WriteLength(|bytes|);
      if r.Throw? {
        return;
      }
      ghost var header := Contents();
      assert header == c0 + [ToUint8(tag)] + LengthBytes(|content|);
      WriteEach(bytes);
      assert Contents() == header + content;
      AppendTlv(c0, ToUint8(tag), content);
    }

    /** Stores the low octet of each number in turn, as writeByte does. */
    method WriteEach(bytes: seq<int>)
      requires Valid()
      modifies this, buf
      ensures Valid() && frames == old(frames) && (buf == old(buf) || fresh(buf))
      ensures Contents() == old(Contents()) + Uint8s(bytes)
    {
      ghost var before := Contents();
      ghost var content := Uint8s(bytes);
      for k := 0 to |bytes|
        invariant Valid() && frames == old(frames) && (buf == old(buf) || fresh(buf))
        invariant Contents() == before + content[..k]
      {
        WriteByte(bytes[k]);
        AppendNext(before, content, k);
      }
      assert content[..|bytes|] == content;
    }

    /** startSequence(tag): the tag, then three reserved octets whose offset
        is pushed on the frame stack. */
    method StartSequence(tag: int := SequenceTag)
      requires Valid()
      modifies this, buf
      ensures Valid() && (buf == old(buf) || fresh(buf))
      ensures |Contents()| == |old(Contents())| + 4
      ensures Contents()[..|old(Contents())| + 1] == old(Contents()) + [ToUint8(tag)]
      ensures frames == old(frames) + [|old(Contents())| + 1]
    {
      WriteByte(tag);
      // The frame is pushed once the room is made; _ensure does not read _seq.
      var frame := offset;
      var _ := Ensure(3);
      ghost var tagged := Contents();
      assert tagged == old(Contents()) + [ToUint8(tag)];
      frames := frames + [frame];
      offset := offset + 3;
      assert Contents()[..frame] == buf[..frame] == tagged;
    }

    /** _shift(start, len, shift): move [start, start+len) by shift octets
        (Buffer.copy moves overlapping ranges correctly) and the cursor with it. */
    method Shift(start: nat, len: nat, shift: int)
      requires shift != 0
      requires start + len <= buf.Length
      requires 0 <= start + shift && start + shift + len <= buf.Length
      requires offset + shift >= 0
      modifies this`offset, buf
      ensures offset == old(offset) + shift
      ensures buf[..] == Moved(old(buf[..]), start, len, shift)
    {
      forall k | 0 <= k < len {
        buf[start + shift + k] := buf[start + k];
      }
      offset := offset + shift;
    }

    /** Stores the length octets lb at position at, one element at a time. */
    method Patch(at: nat, lb: seq<Byte>)
      requires at + |lb| <= buf.Length
      modifies buf
      ensures buf[..] == Patched(old(buf[..]), at, lb)
    {
      forall k | 0 <= k < |lb| {
        buf[at + k] := lb[k];
      }
    }

    /** One branch of endSequence: _shift the content of the frame at
        [frame, frame+3) by shift (when shift is not 0), then store the length
        octets lb at frame. */
    method Backpatch(frame: nat, lb: seq<Byte>, shift: int)
      requires frame + 3 <= offset <= buf.Length
      requires 1 <= |lb| <= 4 && shift == |lb| - 3 && offset + shift <= buf.Length
      modifies this`offset, buf
      ensures offset == old(offset) + shift
      ensures buf[..offset] == old(buf[..offset])[..frame] + lb + old(buf[..offset])[frame + 3..]
    {
      ghost var o := offset;
      ghost var b := buf[..];
      var start := frame + 3;
      var len := offset - start;
      if shift != 0 {
        Shift(start, len, shift);
        Patch(frame, lb);
        MovedPatched(b, o, frame, lb);
      } else {
        Patch(frame, lb);
        Patched3(b, o, frame, lb);
      }
      assert buf[..offset] == buf[..][..offset];
    }

    /** endSequence: pop the innermost frame and replace its three reserved
        octets with the minimal length octets of its content, shifting the
        content left by 2 or 1, or right by 1. The source pops before checking;
        popping an empty stack gives NaN offsets, so every length test fails
        and it throws, as it does for content longer than 0xFFFFFF. Before the
        right shift this model makes room for one more octet, which the source
        omits (see LongBackpatchAsWritten). */
    method EndSequence() returns (r: Outcome)
      requires Valid()
      modifies this, buf
      ensures Valid() && (buf == old(buf) || fresh(buf))
      ensures old(frames) == [] ==> r == Throw(InvalidAsn1Error) && frames == [] && Contents() == old(Contents())
      ensures old(frames) != [] ==> frames == old(frames)[..|old(frames)| - 1]
      ensures old(frames) != [] ==>
        var p := old(frames)[|old(frames)| - 1];
        var len := old(offset) - (p + 3);
        && (len > MaxLength ==> r == Throw(InvalidAsn1Error) && Contents() == old(Contents()))
        && (len <= MaxLength ==>
              r == Done && Contents() == Backpatched(old(Contents()), p))
    {
      if frames == [] {
        return Throw(InvalidAsn1Error);
      }
      FramesPop(frames, offset);
      var frame := frames[|frames| - 1];
      frames := frames[..|frames| - 1];
      var start := frame + 3;
      var len := offset - start;
      if len > MaxLength {
        return Throw(InvalidAsn1Error);
      }
      LengthOctets(len);
      assert Backpatched(Contents(), frame) == Contents()[..frame] + LengthBytes(len) + Contents()[frame + 3..];
      if len <= 0x7F {
        Backpatch(frame, [len], -2);
      } else if len <= 0xFF {
        Backpatch(frame, [0x81, len], -1);
      } else if len <= 0xFFFF {
        Backpatch(frame, [0x82, ToUint8(len / 0x100), ToUint8(len)], 0);
      } else {
        var _ := Ensure(1);
        Backpatch(frame, [0x83, ToUint8(len / 0x1_0000), ToUint8(len / 0x100), ToUint8(len)], 1);
      }
      r := Done;
    }
  }

  /** The array contents after Buffer.copy moves [start, start+len) by shift. */
  function Moved(b: seq<Byte>, start: nat, len: nat, shift: int): seq<Byte>
    requires start + len <= |b| && 0 <= start + shift && start + shift + len <= |b|
  {
    seq(|b|, j requires 0 <= j < |b| =>
      if start + shift <= j < start + shift + len then b[j - shift] else b[j])
  }

  /** b with the octets lb stored from position at. */
  function Patched(b: seq<Byte>, at: nat, lb: seq<Byte>): seq<Byte>
    requires at + |lb| <= |b|
  {
    seq(|b|, j requires 0 <= j < |b| => if at <= j < at + |lb| then lb[j - at] else b[j])
  }

  /** What endSequence makes of the written octets c when the innermost frame
      reserved [p, p+3): the three reserved octets become the minimal length
      octets of the content after them. */
  function Backpatched(c: seq<Byte>, p: nat): (r: seq<Byte>)
    requires p + 3 <= |c| && |c| - (p + 3) <= MaxLength
    ensures |r| == |c| - 3 + |LengthBytes(|c| - (p + 3))|
  {
    c[..p] + LengthBytes(|c| - (p + 3)) + c[p + 3..]
  }

  /** endSequence keeps every octet before the frame (the outer frames' tags
      and reserved octets among them) and the content unchanged, and moves
      the cursor by -2, -1, 0 or +1. */
  lemma BackpatchedKeeps(c: seq<Byte>, p: nat)
    requires p + 3 <= |c| && |c| - (p + 3) <= MaxLength
    ensures var r, lb := Backpatched(c, p), LengthBytes(|c| - (p + 3));
      && r[..p] == c[..p] && r[p..p + |lb|] == lb && r[p + |lb|..] == c[p + 3..]
      && -2 <= |r| - |c| <= 1
  {
    LengthBytesForm(|c| - (p + 3));
  }

  /** Moving the content after the reserved octets [p, p+3) by |lb| - 3 and
      storing lb at p leaves, below the moved cursor, the octets written with
      the reserved octets replaced by lb. */
  lemma MovedPatched(b: seq<Byte>, o: nat, p: nat, lb: seq<Byte>)
    requires p + 3 <= o <= |b| && 1 <= |lb| <= 4 && o + |lb| - 3 <= |b|
    ensures var m := Moved(b, p + 3, o - (p + 3), |lb| - 3);
      Patched(m, p, lb)[..o + |lb| - 3] == b[..o][..p] + lb + b[..o][p + 3..]
  {
    var sh := |lb| - 3;
    var m := Moved(b, p + 3, o - (p + 3), sh);
    var after := Patched(m, p, lb);
    var want := b[..o][..p] + lb + b[..o][p + 3..];
    forall j | 0 <= j < o + sh
      ensures after[j] == want[j]
    {
      if j < p {
        assert want[j] == b[j];
      } else if j < p + |lb| {
        assert want[j] == lb[j - p];
      } else {
        assert want[j] == b[..o][p + 3..][j - p - |lb|];
      }
    }
  }

  /** The same when the length octets fill the reserved octets exactly. */
  lemma Patched3(b: seq<Byte>, o: nat, p: nat, lb: seq<Byte>)
    requires p + 3 <= o <= |b| && |lb| == 3
    ensures Patched(b, p, lb)[..o] == b[..o][..p] + lb + b[..o][p + 3..]
  {
    var after := Patched(b, p, lb);
    var want := b[..o][..p] + lb + b[..o][p + 3..];
    forall j | 0 <= j < o
      ensures after[j] == want[j]
    {
      if j < p {
        assert want[j] == b[j];
      } else if j < p + 3 {
        assert want[j] == lb[j - p];
      } else {
        assert want[j] == b[..o][p + 3..][j - p - 3];
      }
    }
  }

  /** One round of writeInt's size loop: the value still fits in one
      octet less, and shifting it left by 8 stays within int32. */
  lemma SizeStep(i: int, sz: nat, v: int)
    requires IsInt32(i) && 2 <= sz <= 4 && MinIntSize(i) <= sz
    requires v == i * Pow256(4 - sz) && -0x80_0000 <= v < 0x80_0000
    ensures MinIntSize(i) <= sz - 1
    ensures IsInt32(v * 256) && v * 256 == i * Pow256(4 - (sz - 1))
  {
    ShiftedFits(i, sz);
    MinIntSizeAtMost(i, sz - 1);
    assert Pow256(4 - (sz - 1)) == 256 * Pow256(4 - sz);
    Reassociate(i, Pow256(4 - sz), 256);
  }

  /** writeInt's size loop stops at the minimal size. */
  lemma SizeFound(i: int, sz: nat, v: int)
    requires IsInt32(i) && 1 <= sz <= 4 && MinIntSize(i) <= sz
    requires v == i * Pow256(4 - sz)
    requires sz > 1 ==> !(-0x80_0000 <= v < 0x80_0000)
    ensures sz == MinIntSize(i)
  {
    if sz > 1 {
      ShiftedFits(i, sz);
    }
  }

  /** One round of writeInt's output loop: the top octet of the int32
      register is the next content octet, and the register shifts on. */
  lemma EmitStep(i: int, n: nat, sz: nat, v: int)
    requires 1 <= sz <= n <= 4 && v == ToInt32(i * Pow256(4 - sz))
    ensures ToUint32(v) / 0x100_0000 == IntBytes(i, n)[n - sz]
    ensures ToInt32(v * 256) == ToInt32(i * Pow256(4 - (sz - 1)))
  {
    IntBytesRegister(i, n, sz);
    Uint32OfInt32(i * Pow256(4 - sz));
    Int32Scale(i * Pow256(4 - sz), 256);
    assert Pow256(4 - (sz - 1)) == 256 * Pow256(4 - sz);
    Reassociate(i, Pow256(4 - sz), 256);
  }

  /** The octets writeLength stores, with the buffer's truncation to the low
      octet written out. */
  lemma LengthOctets(len: nat)
    requires len <= MaxLength
    ensures 0xFF < len <= 0xFFFF ==> LengthBytes(len) == [0x82, ToUint8(len / 0x100), ToUint8(len)]
    ensures 0xFFFF < len ==>
      LengthBytes(len) == [0x83, ToUint8(len / 0x1_0000), ToUint8(len / 0x100), ToUint8(len)]
  {
  }

  /** Leading 7-bit groups of value y with 1 <= y < 128^k take k octets. */
  lemma GroupsUnfold(y: nat)
    requires 1 <= y
    ensures Groups(y) == Groups(y / 0x80) + [ContinuationOctet(y)]
    ensures y < 0x80 ==> Groups(y) == [ContinuationOctet(y)]
  {
  }

  /** The octets the `buffer` getter returns after the source's endSequence
      takes its right-shift branch (content of more than 0xFFFF octets) on a
      buffer b of capacity |b| holding o octets, as written: no room is made
      first, Buffer.copy drops what would land past the end of the buffer,
      and the getter's slice stops at that end. */
  function LongBackpatchAsWritten(b: seq<Byte>, o: nat, p: nat): (r: seq<Byte>)
    requires p + 3 <= o <= |b| && 0xFFFF < o - (p + 3) <= MaxLength
    ensures |r| == if o + 1 <= |b| then o + 1 else |b|
    ensures r[..p] == b[..p] && r[p..p + 4] == LengthBytes(o - (p + 3))
  {
    var moved := seq(|b|, j requires 0 <= j < |b| => if p + 4 <= j < o + 1 then b[j - 1] else b[j]);
    var patched := Patched(moved, p, LengthBytes(o - (p + 3)));
    LengthOctets(o - (p + 3));
    var r := patched[..if o + 1 <= |b| then o + 1 else |b|];
    var lb := LengthBytes(o - (p + 3));
    assert forall j :: 0 <= j < 4 ==> r[p + j] == lb[j];
    assert r[p..p + 4] == lb;
    r
  }

  /** With a spare octet in the buffer the source's right shift is what the
      corrected EndSequence computes. */
  lemma LongBackpatchWithRoom(b: seq<Byte>, o: nat, p: nat)
    requires p + 3 <= o < |b| && 0xFFFF < o - (p + 3) <= MaxLength
    ensures LongBackpatchAsWritten(b, o, p) == Backpatched(b[..o], p)
  {
    var lb := LengthBytes(o - (p + 3));
    assert seq(|b|, j requires 0 <= j < |b| => if p + 4 <= j < o + 1 then b[j - 1] else b[j])
      == Moved(b, p + 3, o - (p + 3), 1);
    MovedPatched(b, o, p, lb);
  }

  /** When the buffer is exactly full, the source's endSequence loses the
      last content octet: the result is one octet shorter than the encoding
      whose length octets it carries. */
  lemma LongBackpatchFullBuffer(b: seq<Byte>, p: nat)
    requires p + 3 <= |b| && 0xFFFF < |b| - (p + 3) <= MaxLength
    ensures |LongBackpatchAsWritten(b, |b|, p)| == |b|
    ensures |Backpatched(b, p)| == |b| + 1
    ensures LongBackpatchAsWritten(b, |b|, p) != Backpatched(b, p)
    ensures LongBackpatchAsWritten(b, |b|, p) == Backpatched(b, p)[..|b|]
    ensures Backpatched(b, p)[|b|] == b[|b| - 1]
  {
    var c, r := Backpatched(b, p), LongBackpatchAsWritten(b, |b|, p);
    LengthOctets(|b| - (p + 3));
    BackpatchedKeeps(b, p);
    forall j | p + 4 <= j < |b|
      ensures r[j] == c[j]
    {
      assert c[j] == c[p + 4..][j - (p + 4)] == b[p + 3..][j - (p + 4)] == b[j - 1];
    }
    assert r == c[..|b|] by {
      assert r[..p] == c[..p] && r[p..p + 4] == c[p..p + 4];
    }
  }

  /** The leading groups of a subidentifier of two to five octets, as
      _encodeOctet computes them with `>>>` and `| 0x80`. */
  lemma GroupsTwo(y: nat)
    requires 1 <= y < 0x80
    ensures Groups(y) == [ContinuationOctet(y)]
  {
  }

  lemma GroupsThree(y: nat)
    requires 0x80 <= y < 0x4000
    ensures Groups(y) == [ContinuationOctet(y / 0x80), ContinuationOctet(y)]
  {
    GroupsTwo(y / 0x80);
  }

  lemma GroupsFour(y: nat)
    requires 0x4000 <= y < 0x20_0000
    ensures Groups(y) == [ContinuationOctet(y / 0x4000), ContinuationOctet(y / 0x80), ContinuationOctet(y)]
  {
    GroupsThree(y / 0x80);
    Breakdown(y, 0x80, 0x80);
  }

  lemma GroupsFive(y: nat)
    requires 0x20_0000 <= y < 0x1000_0000
    ensures Groups(y) == [ContinuationOctet(y / 0x20_0000), ContinuationOctet(y / 0x4000),
                          ContinuationOctet(y / 0x80), ContinuationOctet(y)]
  {
    GroupsFour(y / 0x80);
    Breakdown(y, 0x80, 0x80);
    Breakdown(y, 0x80, 0x4000);
  }
}
