# node-asn1 BER codec in Dafny

This project models the BER (ITU-T X.690) codec of node-asn1 and proves
properties of the model. It covers three parts of the codec.

- **The writer** (`src/ber/writer.ts`; `lib/ber/writer.js` is its compiled
  form, with the same logic line for line). It appends TLV records to a
  growable buffer:
  - minimal definite lengths (section 8.1.3 of X.690);
  - minimal two's-complement integers (8.3), booleans (8.2) and null (8.8);
  - octet strings and raw buffers;
  - object identifiers (8.19).

  Sequences reserve three length octets when they start. When they end,
  those octets are backpatched (rewritten) with the minimal length, and the
  content is moved left by 2 or 1, or right by 1.
- **The current reader** (`src/ber/reader.ts`). It is a pull parser over an
  immutable buffer. It answers `null` on a short buffer without moving its
  cursor, and throws `InvalidAsn1Error` on malformed input.
- **The older reader** (`lib/ber/reader.js`). It reads the same records
  under a different contract:
  - a short buffer throws `InsufficientDataError`;
  - the cursor advances before the checks and is never rolled back;
  - integers are read as sign and magnitude.

The files:

| file | module | contents |
|---|---|---|
| `arith.dfy` | `Arith` | powers of 256 and 128, and division facts |
| `asn1.dfy` | `Asn1` | octets, tag numbers, errors, outcomes, and JavaScript's `ToInt32`/`ToUint32`, truncating `/` and `%`, out-of-range buffer reads (`undefined & 0xff` is 0) and `Buffer.slice` |
| `encoding.dfy` | `BerEncoding` | the length octets, two's-complement and base-128 forms, with their decoders and inverse lemmas |
| `writer.dfy` | `BerWriter` | class `Writer` over an `array<Byte>`, with `offset` and the frame stack `frames` (`_seq`) |
| `reader.dfy` | `BerReader` | class `Reader`, with step functions for each read |
| `legacy_reader.dfy` | `BerLegacyReader` | class `Reader` of the older reader, with effect functions for each read |
| `round_trip.dfy` | `BerRoundTrip` | writer output read back by both readers; truncated input; the two readers agreeing on length fields |

Every reading method is proved against a function of the buffer and the old
cursor; its `ensures` clause names that function. Those are `SequenceStep`,
`StringStep`, `TagStep` and `OidStep` for the current reader, and
`LengthEffect`, `SequenceEffect`, `StringEffect` and `TagEffect` for the
older one. The lemmas are stated about these functions.

Every writing method states the octets it appends, in terms of
`Contents()` (the octets `[0, _offset)`). Each method also keeps
`Valid()`: the cursor is within the buffer, the growth factor is at least 1,
and the open frames lie at increasing offsets below the cursor.

The writer rows below cite `src/ber/writer.ts`. The same logic is at these
lines of `lib/ber/writer.js`:

| operation | lines of `lib/ber/writer.js` |
|---|---|
| `buffer` | 24-28 |
| `writeLength` | 29-54 |
| `writeByte` | 56-61 |
| `writeInt` | 62-81 |
| `writeNull` | 83-86 |
| `writeEnumeration` | 88-95 |
| `writeBoolean` | 96-105 |
| `writeString` | 107-121 |
| `writeBuffer` | 122-133 |
| `writeStringArray` | 134-142 |
| `writeOID` | 144-164 |
| `startSequence` | 166-174 |
| `endSequence` | 175-203 |
| `_shift` | 219-225 |
| `_ensure` | 227-238 |
| `_encodeOctet` | 240-266 |

Facts about the code that the model keeps:
- Integers are limited to four octets (`src/ber/reader.ts:212`).
- An indefinite length throws (`src/ber/reader.ts:85-86`); it is never
  scanned.
- A four-octet negative integer is decoded correctly. The accumulator is
  int32, so it has already wrapped, and the missing correction for four
  octets is exactly right (`BerReader.TagFixup`). It is not a large
  positive value.
- The current reader decodes a four-octet length whose top bit is set as a
  negative int32, because the accumulation uses `<<`. This is modelled
  rather than excluded (`BerReader.LengthFieldNegative`,
  `BerReader.NegativeLengthRewinds`).

## Model

| member | source | states |
|---|---|---|
| BerEncoding.LengthBytesForm | src/ber/writer.ts:48-61 | the length octets are the short form exactly when len <= 0x7F; otherwise they are 0x80+n followed by n octets spelling len, with no leading zero octet |
| BerEncoding.MinIntSize | src/ber/writer.ts:81-86 | the size writeInt picks is 1 to 4, i fits in it, and i does not fit in one octet fewer |
| BerEncoding.MinIntSizeIsLeast | src/ber/writer.ts:81-86 | no shorter octet string has the value i, so writeInt's content is the minimal two's-complement form |
| BerEncoding.IntBytesRoundTrip | src/ber/writer.ts:95-98 | the n octets the writer emits for i decode back to i as two's complement |
| BerEncoding.SignedBEInverse | src/ber/reader.ts:219-231 | every octet string is the two's-complement encoding of its value, so decoding loses nothing |
| BerEncoding.Base128Shape | src/ber/writer.ts:276-298 | the 7-bit groups of a subidentifier spell the arc, and it has the fewest octets that can |
| BerEncoding.Base128High | src/ber/writer.ts:276-298 | bit 8 is set on every octet of a subidentifier except the last, which has it clear |
| BerEncoding.Base128AtMostFive | src/ber/writer.ts:276-298 | an arc below 2^32 takes one to five octets |
| BerEncoding.Accumulate | src/ber/reader.ts:94-96 | the `(acc << 8) + octet` loop over n octets yields the int32 wrap of their unsigned big-endian value |
| Asn1.ShiftAdd | src/ber/reader.ts:184-185 | adding a low digit after a wrapped shift gives the wrap of the exact value, so the int32 loops compute ToInt32 of the big-endian number |
| Asn1.NodeSlice | src/ber/reader.ts:164 | Buffer.slice with in-range bounds is exactly the octets between them |
| BerWriter.Writer.constructor | src/ber/writer.ts:26-33 | a new writer is empty with no open frame; a size of 0 means 1024 and a growth factor of 0 means 8 |
| BerWriter.Writer.Buffer | src/ber/writer.ts:35-40 | the getter throws InvalidAsn1Error exactly when a frame is open, and otherwise returns exactly the written octets |
| BerWriter.Writer.Ensure | src/ber/writer.ts:260-274 | afterwards at least len octets are free and the written octets are unchanged; growth gives size*factor, plus len if that is still short; len 0 fails assert.ok |
| BerWriter.Writer.WriteByte | src/ber/writer.ts:67-73 | appends the low octet of b |
| BerWriter.Writer.WriteLength | src/ber/writer.ts:42-65 | appends LengthBytes(len) for 0..0xFFFFFF; a negative length takes the short form and appends its low octet; above 0xFFFFFF it throws InvalidAsn1Error with nothing appended |
| BerWriter.Writer.WriteInt | src/ber/writer.ts:75-99 | appends the tag's low octet, MinIntSize(i) and IntBytes(i, MinIntSize(i)) |
| BerWriter.Writer.IntSize | src/ber/writer.ts:81-86 | the trimming loop stops at MinIntSize(i), with the register shifted left by 8*(4-sz) and still int32 |
| BerWriter.Writer.EmitInt | src/ber/writer.ts:95-98 | the output loop appends IntBytes(i, n), the top octet of the shifted register each time |
| BerWriter.Writer.WriteNull | src/ber/writer.ts:101-104 | appends exactly [5, 0] |
| BerWriter.Writer.WriteEnumeration | src/ber/writer.ts:106-113 | appends what writeInt appends, with the Enumeration tag by default |
| BerWriter.Writer.WriteBoolean | src/ber/writer.ts:115-125 | appends exactly [t, 1, 0xFF] for true and [t, 1, 0] for false, where t is the tag's low octet |
| BerWriter.Writer.WriteString | src/ber/writer.ts:127-142 | appends Tlv(t, s) with s unchanged, where t is the tag's low octet; the empty string appends [t, 0]; above 0xFFFFFF it throws after the tag |
| BerWriter.Writer.WriteBuffer | src/ber/writer.ts:144-155 | appends Tlv(t, data), where t is the tag's low octet; an empty buffer throws AssertionError from _ensure(0) after appending [t, 0] |
| BerWriter.Writer.WriteStringArray | src/ber/writer.ts:157-165 | succeeds exactly when every string fits, and then appends the records of all strings in order; at the first string longer than 0xFFFFFF it throws InvalidAsn1Error with the records of the strings before it and that string's tag written |
| BerWriter.Writer.EncodeOctet | src/ber/writer.ts:276-298 | pushes exactly Base128(octet) for any octet below 2^32 |
| BerWriter.Writer.OidNumbers | src/ber/writer.ts:177-185 | the numbers collected are arc0*40+arc1 followed by the subidentifiers of the remaining arcs |
| BerWriter.Writer.WriteOID | src/ber/writer.ts:168-194 | fewer than four arcs throws; otherwise it appends Tlv(t, OidContent(arcs)) with t the tag's low octet, whose first octet is the low octet of arc0*40+arc1; too long a content throws after the tag |
| BerWriter.Writer.WriteEach | src/ber/writer.ts:191-193 | stores the low octet of each number in turn |
| BerWriter.Writer.StartSequence | src/ber/writer.ts:196-204 | appends the tag's low octet and three reserved octets, and pushes the offset just past the tag |
| BerWriter.Writer.Shift | src/ber/writer.ts:251-258 | the overlapping copy moves [start, start+len) by shift octets, and the cursor with it |
| BerWriter.Writer.Backpatch | src/ber/writer.ts:211-227 | replaces the three reserved octets with lb and moves the content after them by \|lb\|-3 |
| BerWriter.Writer.EndSequence | src/ber/writer.ts:206-231 | pops the innermost frame; with no frame it throws and changes nothing; with content above 0xFFFFFF it throws after popping the frame and changes no octets; otherwise the written octets become Backpatched: the octets before the frame, the minimal length octets, then the content unchanged |
| BerWriter.Backpatched | src/ber/writer.ts:206-231 | the backpatched record is 3 - \|LengthBytes\| octets shorter than what was written |
| BerWriter.BackpatchedKeeps | src/ber/writer.ts:206-231 | after endSequence the octets before the frame, and the content, are unchanged; the new length octets sit between them, and the cursor moves by -2 to +1 |
| BerWriter.LongBackpatchAsWritten | src/ber/writer.ts:222-227 | the octets the source's right shift leaves for the `buffer` getter: no more than the buffer's capacity, the octets before the frame unchanged, then the four length octets |
| BerWriter.LongBackpatchWithRoom | src/ber/writer.ts:222-227 | with a spare octet of capacity, the source's right shift gives the corrected result |
| BerWriter.LongBackpatchFullBuffer | src/ber/writer.ts:222-227 | at full capacity the source's right shift yields the correct record with its last octet dropped: one octet shorter than Backpatched, equal to it up to the buffer's end, and missing the content's last octet |
| BerReader.LengthFieldBounds | src/ber/reader.ts:71-104 | a decoded length field is one to five octets long and ends inside the buffer |
| BerReader.LengthFieldFails | src/ber/reader.ts:82-89 | readLength throws exactly on 0x80 and on 0x85-0xFF, always with InvalidAsn1Error |
| BerReader.LengthFieldNegative | src/ber/reader.ts:94-96 | the length is negative exactly when four length octets are given and the first has its top bit set |
| BerReader.LengthFieldOf | src/ber/reader.ts:71-104 | the writer's length octets are read back as the length, ending after them |
| BerReader.LengthFieldShort | src/ber/reader.ts:75-92 | any length field at the end of the buffer, or of the long form with fewer octets left than it announces, gives null rather than an error |
| BerReader.LengthFieldTruncated | src/ber/reader.ts:91-92 | the writer's length octets, cut short by the end of the buffer, give null |
| BerReader.AsBoolean | src/ber/reader.ts:132-134 | false exactly when _readTag yields 0; null gives true; errors propagate |
| BerReader.ScanAll | src/ber/reader.ts:181-190 | scanning the subidentifiers of arcs below 2^31 pushes exactly those arcs |
| BerReader.OidValueOf | src/ber/reader.ts:170-197 | an OID content with a first octet below 128 and arcs below 2^31 is read as first/40, first%40 and the arcs |
| BerReader.NoDataKeepsCursor | src/ber/reader.ts:113-232 | every null answer of readSequence, readString, readOID and _readTag leaves the cursor where it was |
| BerReader.SequenceStepBounds | src/ber/reader.ts:113-126 | readSequence keeps the cursor inside the buffer |
| BerReader.TagStepBounds | src/ber/reader.ts:199-232 | _readTag keeps the cursor inside the buffer |
| BerReader.StringStepBounds | src/ber/reader.ts:140-168 | readString keeps the cursor inside the buffer unless it decoded a negative length |
| BerReader.OidStepBounds | src/ber/reader.ts:170-197 | readOID keeps the cursor inside the buffer unless it decoded a negative length |
| BerReader.NegativeLengthRewinds | src/ber/reader.ts:156-165 | the length 0x84 80 00 00 00 decodes to -2^31, and readString then returns an empty value and moves the cursor below 0 |
| BerReader.TagFixup | src/ber/reader.ts:223-231 | the int32 accumulator, less 2^(8n) when the sign bit is set and n != 4, then `>> 0`, is the two's-complement value of the one to four octets |
| BerReader.Reader.constructor | src/ber/reader.ts:13-19 | the cursor starts at 0 with length 0 |
| BerReader.Reader.UnreadOctets | src/ber/reader.ts:29-35 | with the cursor inside the buffer, `buffer` is exactly the unread octets and `remain` is its size |
| BerReader.Reader.ReadByte | src/ber/reader.ts:44-54 | null with no change exactly when no octet remains; otherwise the octet at the cursor, advancing by 1 unless peeking |
| BerReader.Reader.Peek | src/ber/reader.ts:56-58 | the octet at the cursor, or null, without moving |
| BerReader.Reader.ReadLength | src/ber/reader.ts:71-104 | the end of the length field at the given position (the cursor by default) per LengthField; the cursor never moves, and `len` changes only when a field is found |
| BerReader.Reader.ReadSequence | src/ber/reader.ts:113-126 | per SequenceStep: null leaves the cursor; a tag mismatch throws; success returns the tag, with the cursor after the length field and `len` the content length |
| BerReader.Reader.ReadString | src/ber/reader.ts:140-168 | per StringStep: a tag of 0 means OctetString; content running past the buffer gives null with the cursor unmoved; otherwise exactly `len` octets, with the cursor after them |
| BerReader.Reader.ReadOID | src/ber/reader.ts:170-197 | per OidStep: readString with the OID tag, then the scanned subidentifiers with the first split by 40 |
| BerReader.Reader.ReadTag | src/ber/reader.ts:199-232 | per TagStep: a content above 4 octets throws; content past the buffer gives null; otherwise TagValue, the two's-complement value, with the cursor after the content |
| BerReader.Reader.TagContent | src/ber/reader.ts:219-231 | the accumulation loop and its sign correction give TagValue of the content |
| BerReader.Reader.ReadInt | src/ber/reader.ts:128-130 | _readTag with the Integer tag |
| BerReader.Reader.ReadEnumeration | src/ber/reader.ts:136-138 | _readTag with the Enumeration tag |
| BerReader.Reader.ReadBoolean | src/ber/reader.ts:132-134 | AsBoolean of _readTag with the Boolean tag, with the same cursor |
| BerLegacyReader.AsBoolean | lib/ber/reader.js:119-121 | false exactly when _readTag yields 0; errors propagate |
| BerLegacyReader.MagnitudeBound | lib/ber/reader.js:166-170 | the magnitude of one to four octets is below 2^31, so the int32 shifts never wrap |
| BerLegacyReader.ClearedValue | lib/ber/reader.js:166 | `fb & 0x7F` lowers the value by 128*256^(n-1) exactly when the sign bit was set |
| BerLegacyReader.ErrorsDoNotRewind | lib/ber/reader.js:130-137 | every throw of readLength, readSequence, _readTag and readString leaves the cursor at or after where it began, and a tag mismatch leaves it just past the tag |
| BerLegacyReader.ZeroLengthConsumes | lib/ber/reader.js:163 | a zero-length integer still consumes the octet after the length, reading 0 and ending past the buffer when that octet is missing |
| BerLegacyReader.EffectBounds | lib/ber/reader.js:41-176 | the cursor stays within one octet past the buffer, unless a negative string length was read |
| BerLegacyReader.MinusOneReadsAsMinus127 | lib/ber/reader.js:166-173 | [0xFF] reads as -127, not -1 |
| BerLegacyReader.LegacyValueOf | lib/ber/reader.js:163-175 | the writer's n-octet content of i reads as i when i >= 0 and as -(i + 128*256^(n-1)) when i < 0 |
| BerLegacyReader.Reader.constructor | lib/ber/reader.js:18-31 | the cursor starts at 0 with length 0 |
| BerLegacyReader.Reader.ReadByte | lib/ber/reader.js:41-51 | InsufficientDataError exactly when no octet remains; otherwise the octet, advancing unless peeking |
| BerLegacyReader.Reader.Peek | lib/ber/reader.js:54-56 | the octet at the cursor, or InsufficientDataError, without moving |
| BerLegacyReader.Reader.ReadLength | lib/ber/reader.js:69-97 | per LengthEffect: consumes the length field at the cursor and sets `len`; 0x80 and more than 4 octets throw InvalidAsn1Error; missing octets throw InsufficientDataError |
| BerLegacyReader.Reader.ReadSequence | lib/ber/reader.js:107-111 | per SequenceEffect: consumes the tag, whatever it is, and the length field |
| BerLegacyReader.Reader.ReadString | lib/ber/reader.js:129-146 | per StringEffect: only OctetString is accepted; content past the buffer throws InsufficientDataError; length 0 gives the empty value |
| BerLegacyReader.Reader.Magnitude | lib/ber/reader.js:166-170 | the loop yields the unsigned value of the cleared first octet and the next n octets |
| BerLegacyReader.Reader.ReadTag | lib/ber/reader.js:149-176 | per TagEffect: tag mismatch and length above 4 throw; otherwise the sign-and-magnitude value, with the first content octet always consumed |
| BerLegacyReader.Reader.ReadInt | lib/ber/reader.js:114-116 | _readTag with the Integer tag |
| BerLegacyReader.Reader.ReadEnumeration | lib/ber/reader.js:124-126 | _readTag with the Enumeration tag |
| BerLegacyReader.Reader.ReadBoolean | lib/ber/reader.js:119-121 | AsBoolean of _readTag with the Boolean tag |
| BerRoundTrip.LengthAgreement | lib/ber/reader.js:69-97 | the two readers decode every length field alike: the same length and end, InsufficientDataError where the current one gives null, and the same invalid fields |
| BerRoundTrip.LengthRoundTrip | src/ber/reader.ts:71-104 | the writer's length octets, anywhere in a buffer, are read back as the length by both readers, ending after them |
| BerRoundTrip.IntRoundTrip | src/ber/reader.ts:199-232 | an n-octet two's-complement record of i reads back as i in the current reader, and in sign-and-magnitude form in the older one, with the cursor after it |
| BerRoundTrip.WrittenIntRoundTrip | src/ber/reader.ts:128-130 | readInt and readEnumeration invert writeInt and writeEnumeration for every int32 |
| BerRoundTrip.WrittenNaturalLegacyRoundTrip | lib/ber/reader.js:114-116 | the older readInt inverts writeInt for every non-negative int32 |
| BerRoundTrip.BooleanRoundTrip | src/ber/reader.ts:132-134 | both readers read writeBoolean's record back as the same boolean, with the cursor after it |
| BerRoundTrip.StringRoundTrip | src/ber/reader.ts:140-168 | a written string record reads back as the same octets, with `len` its length and the cursor after it; the older reader does the same for OctetString |
| BerRoundTrip.TruncatedString | src/ber/reader.ts:151-157 | a string record cut anywhere before its last octet gives null with the cursor unmoved, and InsufficientDataError in the older reader |
| BerRoundTrip.TruncatedInt | src/ber/reader.ts:208-216 | an integer record cut anywhere before its last octet gives null from _readTag with the cursor unmoved, and InsufficientDataError in the older reader (lib/ber/reader.js:156-160) |
| BerRoundTrip.TruncatedSequence | src/ber/reader.ts:113-126 | a sequence cut anywhere after its length octets still opens in both readers, with its tag and content length, because readSequence reads nothing of the content |
| BerRoundTrip.BackpatchedIsTlv | src/ber/writer.ts:196-231 | startSequence, content and endSequence produce exactly Tlv(tag, content) |
| BerRoundTrip.SequenceRoundTrip | src/ber/reader.ts:113-126 | readSequence on a written sequence returns its tag, with the cursor on the first content octet and `len` the content length, in both readers |
| BerRoundTrip.OidRoundTrip | src/ber/reader.ts:170-197 | readOID inverts writeOID when arc0*40+arc1 < 128, arc1 < 40 and the other arcs are below 2^31 |

## Left out

- UTF-8 conversion is left out, because it is a library call. This covers
  `Buffer.byteLength`, `buf.write` and `toString('utf8')`. Strings are
  their octets, and `readString`'s `retbuf` flag is therefore not modelled.
- OID text is left out. `writeOID` takes the arcs as numbers, not a decimal
  string, and `readOID` returns them as numbers, not `join('.')`. The
  regular expression becomes "at least four arcs", and `parseInt` is not
  modelled.
- `_merge` is left out, because it is JavaScript property reflection. The
  options are the two naturals `size` and `growthFactor`, where 0 stands
  for an absent or falsy value.
- The `typeof` checks and `TypeError`s are left out, because Dafny's types
  rule them out. So are the JavaScript `undefined` tag arguments, which
  become defaults or `Option` values.
- Lengths and tags that are not whole numbers are left out: the writer's
  length and tag parameters are integers, stored as their low octet as a
  `Buffer` stores them.
- BerWriter.Writer.WriteOID: requires every arc after the first two to be
  below 2^32, because `_encodeOctet`'s `>>>` would wrap larger arcs.
- BerWriter.Writer.WriteInt: requires an int32 argument, because the
  source's `&` and `<<` treat wider numbers as their 32-bit wrap. Within
  that range the `sz > 4` throw is unreachable.
- The current reader's `lenB === null` test is left out, because it can
  never hold.
- `Buffer.slice` returns a view sharing memory with the reader's buffer.
  The model returns the octets, so later writes through the view are not
  modelled.
- The `|` that adds an octet after a shift is modelled as `+`. The two agree
  because the shifted value's low eight bits are clear.
- In `BerReader.Reader.TagContent`, `BerLegacyReader.Reader.Magnitude` and
  `BerEncoding.Accumulate`, the per-octet increments of `_offset` inside
  the loops are added to the cursor as one step after the loop.
- BerReader.StringStepBounds: weaker than "the cursor stays in the
  buffer". A negative length (four length octets with the top bit set)
  moves the cursor before the buffer; BerReader.NegativeLengthRewinds shows
  such an input.
- BerReader.OidStepBounds: weaker in the same way, because readOID calls
  readString.
- BerLegacyReader.EffectBounds: weaker in the same way for the older
  readString. Its other reads may leave the cursor one octet past the
  buffer, because `_readTag` always consumes the first content octet.
- BerLegacyReader.LegacyValueOf: states the older reader's value for the
  writer's octets. The older reader does not invert `writeInt` for negative
  numbers, and no lemma claims that it does.
- BerRoundTrip.OidRoundTrip: requires arc0*40+arc1 < 128, arc1 < 40 and
  the later arcs below 2^31. Outside these bounds the source does not
  round-trip: the first octet is not base-128 encoded, and readOID's
  accumulator is int32.
- BerRoundTrip.WrittenNaturalLegacyRoundTrip: covers non-negative integers
  only, for the reason given under LegacyValueOf.
- Cut-short records are covered for strings (BerRoundTrip.TruncatedString)
  and integers (BerRoundTrip.TruncatedInt). A sequence cut inside its
  content is not an error in either reader (BerRoundTrip.TruncatedSequence);
  a sequence cut inside its header reaches the same null branches of
  `readLength` as a string, and has no lemma of its own.
- Indefinite lengths, RelativeOID, and integers longer than four octets are
  left out. No code in the codec handles them.

## Findings

| source | as written | input that shows it | evidently intended | confidence | as-written member | corrected member |
|---|---|---|---|---|---|---|
| src/ber/writer.ts:222-227 | for content longer than 0xFFFF, endSequence shifts the content right by one octet without `_ensure(1)` first; `Buffer.copy` drops the octet that would land past the end, and the `buffer` getter's slice stops at the end of the buffer | `new Writer({size: 0x10009})`, `startSequence()`, `writeBuffer` of 0x10000 octets, `endSequence()`: the buffer is exactly full (4 + 0x10005 octets) when endSequence runs, and `buffer` returns 0x10009 octets where the record needs 0x1000A; the last content octet is lost | make room for the extra length octet before the right shift, as every other write does | not executed | BerWriter.LongBackpatchAsWritten, BerWriter.LongBackpatchFullBuffer | BerWriter.Writer.EndSequence |

`BerWriter.LongBackpatchAsWritten` gives the octets the source produces in
this branch. `BerWriter.LongBackpatchFullBuffer` proves that, when the
buffer is full, those octets are the encoding with its last octet (the
content's last octet) dropped. `BerWriter.LongBackpatchWithRoom` proves that they agree when
there is room. `BerWriter.Writer.EndSequence` calls `Ensure(1)` before the
right shift and is proved to produce `Backpatched`, the minimal-length
record.
