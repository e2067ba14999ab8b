/** The writer and the readers against each other: what the writer appends
    is read back by the current reader and, where its contract allows, by
    the older one, from any position in any surrounding buffer; a string or
    integer record cut short is reported as insufficient data, while a
    sequence cut inside its content still opens, since readSequence reads
    only its tag and length; and the two readers agree on every length
    field. */
module BerRoundTrip {
  import opened Arith
  import opened Asn1
  import opened BerEncoding
  import opened BerWriter
  import R = BerReader
  import L = BerLegacyReader

  // ---------------------------------------------------------------------
  // Positions inside a framed buffer

  /** x sits at |pre| in pre + x + post. */
  lemma Framed(pre: seq<Byte>, x: seq<Byte>, post: seq<Byte>)
    ensures (pre + x + post)[|pre|..|pre| + |x|] == x
  {
    assert (pre + x + post)[|pre|..|pre| + |x|] == (pre + x)[|pre|..];
  }

  /** A part of x at position a in buf sits at a + i. */
  lemma SubSlice(buf: seq<Byte>, a: nat, x: seq<Byte>, i: nat, j: nat)
    requires a + |x| <= |buf| && buf[a..a + |x|] == x && i <= j <= |x|
    ensures buf[a + i..a + j] == x[i..j]
  {
    forall k | 0 <= k < j - i
      ensures buf[a + i..a + j][k] == x[i..j][k]
    {
      assert buf[a + i + k] == buf[a..a + |x|][i + k];
    }
  }

  /** The three parts of u + v + w at position a in buf. */
  lemma Parts(buf: seq<Byte>, a: nat, u: seq<Byte>, v: seq<Byte>, w: seq<Byte>)
    requires a + |u + v + w| <= |buf| && buf[a..a + |u + v + w|] == u + v + w
    ensures buf[a..a + |u|] == u
    ensures buf[a + |u|..a + |u| + |v|] == v
    ensures buf[a + |u| + |v|..a + |u| + |v| + |w|] == w
  {
    var x := u + v + w;
    SubSlice(buf, a, x, 0, |u|);
    assert x[..|u|] == u;
    SubSlice(buf, a, x, |u|, |u| + |v|);
    assert x[|u|..|u| + |v|] == v;
    SubSlice(buf, a, x, |u| + |v|, |x|);
    assert x[|u| + |v|..] == w;
  }

  /** A tag octet followed by the length octets of length, at position at,
      is a header for both readers. */
  lemma HeaderAt(buf: seq<Byte>, at: nat, tag: Byte, length: nat, len: int)
    requires length <= MaxLength
    requires at + 1 + |LengthBytes(length)| <= |buf|
    requires buf[at] == tag
    requires buf[at + 1..at + 1 + |LengthBytes(length)|] == LengthBytes(length)
    ensures var f := R.Field(at + 1 + |LengthBytes(length)|, length);
      && R.Header(buf, at, Some(tag)) == Got((tag, f))
      && R.Header(buf, at, None) == Got((tag, f))
      && L.LengthEffect(buf, at + 1, len) == L.Effect(Ok(length), f.end, length)
  {
    R.LengthFieldOf(buf, at + 1, length);
    LegacyLengthOf(buf, at + 1, length, len);
  }

  /** The older reader on the length octets of length at position at. */
  lemma LegacyLengthOf(buf: seq<Byte>, at: nat, length: nat, len: int)
    requires length <= MaxLength
    requires R.LengthField(buf, at) == Got(R.Field(at + |LengthBytes(length)|, length))
    ensures L.LengthEffect(buf, at, len) == L.Effect(Ok(length), at + |LengthBytes(length)|, length)
  {
    LengthAgreement(buf, at, len);
  }

  /** The tag and length octets that open the record Tlv(tag, s). */
  lemma TlvHeader(buf: seq<Byte>, at: nat, tag: Byte, s: seq<Byte>)
    requires |s| <= MaxLength && at + |Tlv(tag, s)| <= |buf| && buf[at..at + |Tlv(tag, s)|] == Tlv(tag, s)
    ensures var e := at + 1 + |LengthBytes(|s|)|;
      && buf[at] == tag
      && buf[at + 1..e] == LengthBytes(|s|)
      && buf[e..e + |s|] == s
  {
    var lb := LengthBytes(|s|);
    Parts(buf, at, [tag], lb, s);
    assert buf[at..at + 1] == [tag];
  }

  // ---------------------------------------------------------------------
  // The two readers on a length field

  /** Both readers decode a length field alike: the older one's length and
      cursor are the current one's field, its InsufficientDataError is the
      current one's NoData, and both reject the same fields as invalid. */
  lemma LengthAgreement(buf: seq<Byte>, at: int, len: int)
    ensures var f, e := R.LengthField(buf, at), L.LengthEffect(buf, at, len);
      && (f.Got? <==> e.result.Ok?)
      && (f.Got? ==> e == L.Effect(Ok(f.value.length), f.value.end, f.value.length))
      && (f.NoData? <==> e.result == Err(InsufficientDataError))
      && (f.Fail? <==> e.result == Err(InvalidAsn1Error))
      && (f.Fail? ==> f.err == InvalidAsn1Error)
  {
  }

  /** The length octets the writer emits decode to the length, in both
      readers, wherever they sit. */
  lemma LengthRoundTrip(pre: seq<Byte>, length: nat, post: seq<Byte>, len: int)
    requires length <= MaxLength
    ensures var buf, e := pre + LengthBytes(length) + post, |pre| + |LengthBytes(length)|;
      && R.LengthField(buf, |pre|) == Got(R.Field(e, length))
      && L.LengthEffect(buf, |pre|, len) == L.Effect(Ok(length), e, length)
  {
    var buf := pre + LengthBytes(length) + post;
    Framed(pre, LengthBytes(length), post);
    R.LengthFieldOf(buf, |pre|, length);
    LengthAgreement(buf, |pre|, len);
  }

  // ---------------------------------------------------------------------
  // Integers, enumerations and booleans

  /** The n-octet two's-complement content of i under any tag: the current
      reader gives i back; the older one gives i for i >= 0 and, for i < 0,
      the sign-and-magnitude reading of the same octets. Both leave the
      cursor after the record. */
  lemma IntRoundTrip(pre: seq<Byte>, tag: Byte, i: int, n: nat, post: seq<Byte>, len: int)
    requires n <= 4 && Fits(i, n)
    ensures var buf, e := pre + ([tag, n] + IntBytes(i, n)) + post, |pre| + 2 + n;
      && R.TagStep(buf, |pre|, len, tag) == R.Step(Got(i), e, n)
      && L.TagEffect(buf, |pre|, len, tag)
         == L.Effect(Ok(if i >= 0 then i else -(i + 128 * Pow256(n - 1))), e, n)
  {
    var bs := IntBytes(i, n);
    var buf, at := pre + ([tag, n] + bs) + post, |pre|;
    Pow256Values();
    assert LengthBytes(n) == [n];
    assert [tag, n] + bs == Tlv(tag, bs);
    Framed(pre, Tlv(tag, bs), post);
    TlvHeader(buf, at, tag, bs);
    HeaderAt(buf, at, tag, n, len);
    CurrentInt(buf, at + 2, i, n);
    LegacyInt(buf, at + 2, i, n);
  }

  /** The current reader's value of the n octets IntBytes(i, n) at at. */
  lemma CurrentInt(buf: seq<Byte>, at: nat, i: int, n: nat)
    requires n <= 4 && Fits(i, n)
    requires at + n <= |buf| && buf[at..at + n] == IntBytes(i, n)
    ensures R.TagValue(buf, at, n) == i
  {
    OctetsSlice(buf, at, n);
    IntBytesRoundTrip(i, n);
  }

  /** The older reader's value of the same octets: the first one and the
      n - 1 after it. */
  lemma LegacyInt(buf: seq<Byte>, at: nat, i: int, n: nat)
    requires Fits(i, n)
    requires at + n <= |buf| && buf[at..at + n] == IntBytes(i, n)
    ensures L.LegacyValue(ByteAt(buf, at), Octets(buf, at + 1, n - 1))
            == if i >= 0 then i else -(i + 128 * Pow256(n - 1))
  {
    var bs := IntBytes(i, n);
    OctetsSlice(buf, at + 1, n - 1);
    SubSlice(buf, at, bs, 1, n);
    assert ByteAt(buf, at) == bs[0];
    L.LegacyValueOf(i, n);
  }

  /** What writeInt and writeEnumeration append reads back. */
  lemma WrittenIntRoundTrip(pre: seq<Byte>, tag: Byte, i: int, post: seq<Byte>, len: int)
    requires IsInt32(i)
    ensures var n := MinIntSize(i);
      var buf := pre + ([tag, n] + IntBytes(i, n)) + post;
      R.TagStep(buf, |pre|, len, tag) == R.Step(Got(i), |pre| + 2 + n, n)
  {
    IntRoundTrip(pre, tag, i, MinIntSize(i), post, len);
  }

  /** The older reader gives a non-negative value back unchanged. */
  lemma WrittenNaturalLegacyRoundTrip(pre: seq<Byte>, tag: Byte, i: nat, post: seq<Byte>, len: int)
    requires i < Two31
    ensures var n := MinIntSize(i);
      var buf := pre + ([tag, n] + IntBytes(i, n)) + post;
      L.TagEffect(buf, |pre|, len, tag) == L.Effect(Ok(i), |pre| + 2 + n, n)
  {
    IntRoundTrip(pre, tag, i, MinIntSize(i), post, len);
  }

  /** What writeBoolean appends ([tag, 1, 0xFF] or [tag, 1, 0]) reads back
      as the same boolean in both readers; the older one reads 0xFF as -127,
      which is still true. */
  lemma BooleanRoundTrip(pre: seq<Byte>, tag: Byte, b: bool, post: seq<Byte>, len: int)
    ensures var buf := pre + [tag, 1, if b then 0xFF else 0] + post;
      && R.AsBoolean(R.TagStep(buf, |pre|, len, tag).result) == Got(b)
      && R.TagStep(buf, |pre|, len, tag).offset == |pre| + 3
      && L.AsBoolean(L.TagEffect(buf, |pre|, len, tag).result) == Ok(b)
      && L.TagEffect(buf, |pre|, len, tag).offset == |pre| + 3
  {
    var i := if b then -1 else 0;
    Pow256Values();
    assert IntBytes(i, 1) == [if b then 0xFF else 0];
    assert [tag, 1] + IntBytes(i, 1) == [tag, 1, if b then 0xFF else 0];
    assert pre + [tag, 1, if b then 0xFF else 0] + post == pre + ([tag, 1] + IntBytes(i, 1)) + post;
    IntRoundTrip(pre, tag, i, 1, post, len);
  }

  // ---------------------------------------------------------------------
  // Strings

  /** A record Tlv(tag, s) reads back as s, with the cursor after it and
      `len` the content length; readString(t) asks for tag when StringTag(t)
      is tag. The older reader only reads OctetString records, and gives s
      back the same way. */
  lemma StringRoundTrip(pre: seq<Byte>, tag: Byte, s: seq<Byte>, post: seq<Byte>, t: int, len: int)
    requires |s| <= MaxLength && R.StringTag(t) == tag
    ensures var buf, e := pre + Tlv(tag, s) + post, |pre| + |Tlv(tag, s)|;
      && R.StringStep(buf, |pre|, len, t) == R.Step(Got(s), e, |s|)
      && (tag == OctetString ==> L.StringEffect(buf, |pre|, len) == L.Effect(Ok(s), e, |s|))
  {
    var buf := pre + Tlv(tag, s) + post;
    Framed(pre, Tlv(tag, s), post);
    StringAt(buf, |pre|, tag, s, t, len);
    if tag == OctetString {
      LegacyStringAt(buf, |pre|, s, len);
    }
  }

  /** The current reader on the record Tlv(tag, s) at position at. */
  lemma StringAt(buf: seq<Byte>, at: nat, tag: Byte, s: seq<Byte>, t: int, len: int)
    requires |s| <= MaxLength && R.StringTag(t) == tag
    requires at + |Tlv(tag, s)| <= |buf| && buf[at..at + |Tlv(tag, s)|] == Tlv(tag, s)
    ensures R.StringStep(buf, at, len, t) == R.Step(Got(s), at + |Tlv(tag, s)|, |s|)
  {
    TlvHeader(buf, at, tag, s);
    HeaderAt(buf, at, tag, |s|, len);
    var e := at + 1 + |LengthBytes(|s|)|;
    assert NodeSlice(buf, e, e + |s|) == s;
  }

  /** The older reader on the record Tlv(OctetString, s) at position at. */
  lemma LegacyStringAt(buf: seq<Byte>, at: nat, s: seq<Byte>, len: int)
    requires |s| <= MaxLength
    requires at + |Tlv(OctetString, s)| <= |buf| && buf[at..at + |Tlv(OctetString, s)|] == Tlv(OctetString, s)
    ensures L.StringEffect(buf, at, len) == L.Effect(Ok(s), at + |Tlv(OctetString, s)|, |s|)
  {
    TlvHeader(buf, at, OctetString, s);
    HeaderAt(buf, at, OctetString, |s|, len);
    var e := at + 1 + |LengthBytes(|s|)|;
    assert NodeSlice(buf, e, e + |s|) == s;
  }

  /** A record cut short before its last octet is insufficient data: the
      current reader answers NoData and leaves the cursor where it was, and
      the older one throws InsufficientDataError. */
  lemma TruncatedString(pre: seq<Byte>, tag: Byte, s: seq<Byte>, k: nat, t: int, len: int)
    requires |s| <= MaxLength && R.StringTag(t) == tag && k < |Tlv(tag, s)|
    ensures var buf := pre + Tlv(tag, s)[..k];
      && R.StringStep(buf, |pre|, len, t).result == NoData
      && R.StringStep(buf, |pre|, len, t).offset == |pre|
      && (tag == OctetString ==> L.StringEffect(buf, |pre|, len).result == Err(InsufficientDataError))
  {
    var buf, at := pre + Tlv(tag, s)[..k], |pre|;
    assert |buf| == at + k && buf[at..] == Tlv(tag, s)[..k];
    if k > 0 {
      TruncatedField(buf, at, tag, s, k);
      TruncatedCurrent(buf, at, tag, s, t, len);
      if tag == OctetString {
        TruncatedLegacy(buf, at, s, len);
      }
    }
  }

  /** readString on a buffer that ends inside the header or the content. */
  lemma TruncatedCurrent(buf: seq<Byte>, at: nat, tag: Byte, s: seq<Byte>, t: int, len: int)
    requires |s| <= MaxLength && R.StringTag(t) == tag && at < |buf| && buf[at] == tag
    requires var e := at + 1 + |LengthBytes(|s|)|;
      || R.LengthField(buf, at + 1) == NoData
      || (R.LengthField(buf, at + 1) == Got(R.Field(e, |s|)) && |s| > |buf| - e)
    ensures R.StringStep(buf, at, len, t) == R.Step(NoData, at, R.StringStep(buf, at, len, t).len)
  {
  }

  /** The older reader's readString on the same buffer. */
  lemma TruncatedLegacy(buf: seq<Byte>, at: nat, s: seq<Byte>, len: int)
    requires |s| <= MaxLength && at < |buf| && buf[at] == OctetString
    requires var e := at + 1 + |LengthBytes(|s|)|;
      || R.LengthField(buf, at + 1) == NoData
      || (R.LengthField(buf, at + 1) == Got(R.Field(e, |s|)) && |s| > |buf| - e)
    ensures L.StringEffect(buf, at, len).result == Err(InsufficientDataError)
  {
    LengthAgreement(buf, at + 1, len);
  }

  /** Where the record is cut after its tag: inside the length octets, the
      field is insufficient data; after them, the content runs past the end. */
  lemma TruncatedField(buf: seq<Byte>, at: nat, tag: Byte, s: seq<Byte>, k: nat)
    requires |s| <= MaxLength && 1 <= k < |Tlv(tag, s)|
    requires |buf| == at + k && buf[at..] == Tlv(tag, s)[..k]
    ensures var e := at + 1 + |LengthBytes(|s|)|;
      && at < |buf| && buf[at] == tag
      && (R.LengthField(buf, at + 1) == NoData
          || (R.LengthField(buf, at + 1) == Got(R.Field(e, |s|)) && |s| > |buf| - e))
  {
    var y := Tlv(tag, s)[..k];
    var lb := LengthBytes(|s|);
    TlvPrefix(tag, s, k);
    assert buf[at] == y[0];
    if k <= |lb| {
      assert buf[at + 1..] == y[1..];
      R.LengthFieldTruncated(buf, at + 1, |s|);
    } else {
      assert buf[at + 1..at + 1 + |lb|] == y[1..1 + |lb|];
      R.LengthFieldOf(buf, at + 1, |s|);
    }
  }

  /** An integer record [tag, n] + IntBytes(i, n) cut short before its last
      octet: the current reader's _readTag answers NoData with the cursor
      unmoved (in readLength, or at the check that the content fits), and
      the older one throws InsufficientDataError. */
  lemma TruncatedInt(pre: seq<Byte>, tag: Byte, i: int, n: nat, k: nat, len: int)
    requires n <= 4 && Fits(i, n) && k < n + 2
    ensures var buf := pre + ([tag, n] + IntBytes(i, n))[..k];
      && R.TagStep(buf, |pre|, len, tag).result == NoData
      && R.TagStep(buf, |pre|, len, tag).offset == |pre|
      && L.TagEffect(buf, |pre|, len, tag).result == Err(InsufficientDataError)
  {
    var bs := IntBytes(i, n);
    assert LengthBytes(n) == [n];
    assert [tag, n] + bs == Tlv(tag, bs);
    var buf, at := pre + Tlv(tag, bs)[..k], |pre|;
    assert |buf| == at + k && buf[at..] == Tlv(tag, bs)[..k];
    if k > 0 {
      TruncatedField(buf, at, tag, bs, k);
      TruncatedTag(buf, at, tag, bs, len);
    }
  }

  /** Both readers' _readTag on a buffer that ends inside the length octets
      or the content of an integer record at position at. */
  lemma TruncatedTag(buf: seq<Byte>, at: nat, tag: Byte, s: seq<Byte>, len: int)
    requires |s| <= 4 && at < |buf| && buf[at] == tag
    requires var e := at + 1 + |LengthBytes(|s|)|;
      || R.LengthField(buf, at + 1) == NoData
      || (R.LengthField(buf, at + 1) == Got(R.Field(e, |s|)) && |s| > |buf| - e)
    ensures R.TagStep(buf, at, len, tag).result == NoData && R.TagStep(buf, at, len, tag).offset == at
    ensures L.TagEffect(buf, at, len, tag).result == Err(InsufficientDataError)
  {
    LengthAgreement(buf, at + 1, len);
  }

  /** A sequence cut anywhere after its length octets still opens: both
      readers return its tag and the content length, as readSequence reads
      nothing of the content. */
  lemma TruncatedSequence(pre: seq<Byte>, tag: Byte, content: seq<Byte>, k: nat, len: int)
    requires |content| <= MaxLength && 1 + |LengthBytes(|content|)| <= k <= |Tlv(tag, content)|
    ensures var buf, e := pre + Tlv(tag, content)[..k], |pre| + 1 + |LengthBytes(|content|)|;
      && R.SequenceStep(buf, |pre|, len, Some(tag)) == R.Step(Got(tag), e, |content|)
      && L.SequenceEffect(buf, |pre|, len) == L.Effect(Ok(tag), e, |content|)
  {
    var lb := LengthBytes(|content|);
    var buf, at := pre + Tlv(tag, content)[..k], |pre|;
    var y := Tlv(tag, content)[..k];
    assert |buf| == at + k && buf[at..] == y;
    TlvPrefix(tag, content, k);
    assert buf[at] == y[0];
    assert buf[at + 1..at + 1 + |lb|] == y[1..1 + |lb|];
    HeaderAt(buf, at, tag, |content|, len);
  }

  /** The first k octets of a record: the tag, then all or part of the
      length octets. */
  lemma TlvPrefix(tag: Byte, s: seq<Byte>, k: nat)
    requires |s| <= MaxLength && 1 <= k <= |Tlv(tag, s)|
    ensures var y, lb := Tlv(tag, s)[..k], LengthBytes(|s|);
      && y[0] == tag
      && (k <= |lb| ==> y[1..] == lb[..k - 1])
      && (k > |lb| ==> y[1..1 + |lb|] == lb)
  {
    var lb := LengthBytes(|s|);
    var y := ([tag] + lb + s)[..k];
    assert y[1..] == (lb + s)[..k - 1];
    if k > |lb| {
      assert (lb + s)[..k - 1][..|lb|] == lb;
    }
  }

  // ---------------------------------------------------------------------
  // Sequences

  /** endSequence turns the tag, the three reserved octets and the content
      written after them into the record Tlv(tag, content). */
  lemma BackpatchedIsTlv(pre: seq<Byte>, tag: Byte, reserved: seq<Byte>, content: seq<Byte>)
    requires |reserved| == 3 && |content| <= MaxLength
    ensures Backpatched(pre + [tag] + reserved + content, |pre| + 1) == pre + Tlv(tag, content)
  {
    var c := pre + [tag] + reserved + content;
    assert c[..|pre| + 1] == pre + [tag];
    assert c[|pre| + 4..] == content;
  }

  /** readSequence on a written sequence gives its tag, with the cursor on
      the first content octet and `len` the content length; the older
      reader does the same for any tag. */
  lemma SequenceRoundTrip(pre: seq<Byte>, tag: Byte, content: seq<Byte>, post: seq<Byte>, len: int)
    requires |content| <= MaxLength
    ensures var buf, e := pre + Tlv(tag, content) + post, |pre| + 1 + |LengthBytes(|content|)|;
      && R.SequenceStep(buf, |pre|, len, Some(tag)) == R.Step(Got(tag), e, |content|)
      && R.SequenceStep(buf, |pre|, len, None) == R.Step(Got(tag), e, |content|)
      && L.SequenceEffect(buf, |pre|, len) == L.Effect(Ok(tag), e, |content|)
  {
    var x := Tlv(tag, content);
    var buf, at := pre + x + post, |pre|;
    Framed(pre, x, post);
    TlvHeader(buf, at, tag, content);
    HeaderAt(buf, at, tag, |content|, len);
  }

  // ---------------------------------------------------------------------
  // Object identifiers

  /** (a0 * 40 + a1) / 40 and % 40 give a0 and a1 back when a1 < 40. */
  lemma FirstOctet(a0: nat, a1: nat)
    requires a1 < 40
    ensures (a0 * 40 + a1) / 40 == a0 && (a0 * 40 + a1) % 40 == a1
  {
    DivModUnique(a0 * 40 + a1, 40, a0, a1);
  }

  /** An OID record as writeOID writes it reads back as the same arcs when
      the first octet a0 * 40 + a1 is a single subidentifier octet (below
      128, with a1 < 40) and every later arc is below 2^31, where readOID's
      int32 accumulator does not wrap. readOID(t) asks for tag when t is
      tag, or t is 0 and tag is OID. */
  lemma OidRoundTrip(pre: seq<Byte>, tag: Byte, arcs: seq<nat>, post: seq<Byte>, t: int, len: int)
    requires |arcs| >= 2 && arcs[0] * 40 + arcs[1] < 0x80 && arcs[1] < 40
    requires forall k :: 2 <= k < |arcs| ==> arcs[k] < Two31
    requires |OidContent(arcs)| <= MaxLength
    requires tag == (if t == 0 then OID else t)
    ensures var c := OidContent(arcs);
      var buf := pre + Tlv(tag, c) + post;
      R.OidStep(buf, |pre|, len, t) == R.Step(Got(R.Arcs(arcs)), |pre| + |Tlv(tag, c)|, |c|)
  {
    var first := arcs[0] * 40 + arcs[1];
    var rest := arcs[2..];
    Framed(pre, Tlv(tag, OidContent(arcs)), post);
    StringAt(pre + Tlv(tag, OidContent(arcs)) + post, |pre|, tag, OidContent(arcs), if t == 0 then OID else t, len);
    assert OidContent(arcs) == [first] + Base128All(rest);
    R.OidValueOf(first, rest);
    FirstOctet(arcs[0], arcs[1]);
    assert [arcs[0], arcs[1]] + rest == arcs;
  }
}
