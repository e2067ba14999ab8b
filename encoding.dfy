/** The wire formats of ITU-T X.690 that the writer emits and the readers
    decode: definite lengths (section 8.1.3), two's-complement integers
    (section 8.3) and base-128 subidentifiers of object identifiers
    (section 8.19). Each encoder is paired with a decoder and the lemmas
    below prove that they invert each other and that the encodings are
    minimal. */
module BerEncoding {
  import opened Arith
  import opened Asn1

  // ---------------------------------------------------------------------
  // Unsigned big-endian octet strings

  /** The unsigned big-endian value of a string of octets. */
  function UnsignedBE(bs: seq<Byte>): (r: nat)
    ensures r < Pow256(|bs|)
  {
    if bs == [] then 0 else UnsignedBE(bs[..|bs| - 1]) * 256 + bs[|bs| - 1]
  }

  /** The first octet weighs 256^(n-1). */
  lemma {:induction false} UnsignedBECons(bs: seq<Byte>)
    requires |bs| >= 1
    ensures UnsignedBE(bs) == bs[0] * Pow256(|bs| - 1) + UnsignedBE(bs[1..])
  {
    var n := |bs|;
    if n > 1 {
      var init, last := bs[..n - 1], bs[n - 1];
      UnsignedBECons(init);
      assert init[1..] == bs[1..][..n - 2];
      assert bs[1..][n - 2] == last;
      var p, u := Pow256(n - 2), UnsignedBE(init[1..]);
      assert Pow256(n - 1) == 256 * p;
      assert UnsignedBE(bs) == (bs[0] * p + u) * 256 + last;
      assert UnsignedBE(bs[1..]) == u * 256 + last;
      Distribute(bs[0], p, u, 256);
    } else {
      assert bs[1..] == [];
    }
  }

  /** The n octets of x modulo 256^n, most significant first. */
  function BigEndian(x: nat, n: nat): (r: seq<Byte>)
    ensures |r| == n
  {
    if n == 0 then [] else BigEndian(x / 256, n - 1) + [x % 256]
  }

  lemma UnsignedBESnoc(bs: seq<Byte>, b: Byte)
    ensures UnsignedBE(bs + [b]) == UnsignedBE(bs) * 256 + b
  {
    assert (bs + [b])[..|bs|] == bs;
  }

  /** Reading back BigEndian(x, n) gives x reduced modulo 256^n. */
  lemma {:induction false} UnsignedBigEndian(x: nat, n: nat)
    ensures UnsignedBE(BigEndian(x, n)) == x % Pow256(n)
  {
    if n > 0 {
      UnsignedBigEndian(x / 256, n - 1);
      UnsignedBESnoc(BigEndian(x / 256, n - 1), x % 256);
      Breakdown(x, 256, Pow256(n - 1));
    }
  }

  /** Every octet string is the BigEndian image of its value. */
  lemma {:induction false} BigEndianUnsigned(bs: seq<Byte>)
    ensures BigEndian(UnsignedBE(bs), |bs|) == bs
  {
    if bs != [] {
      var init, b := bs[..|bs| - 1], bs[|bs| - 1];
      BigEndianUnsigned(init);
      DivModUnique(UnsignedBE(bs), 256, UnsignedBE(init), b);
      assert bs == init + [b];
    }
  }

  /** The leading octet of an n-octet representation is x / 256^(n-1). */
  lemma {:induction false} BigEndianFirst(x: nat, n: nat)
    requires 1 <= n && x < Pow256(n)
    ensures BigEndian(x, n)[0] == x / Pow256(n - 1)
  {
    if n == 1 {
      DivModUnique(x, 256, 0, x);
    } else {
      Breakdown(x, 256, Pow256(n - 2));
      DivAtLeast(x, 256, Pow256(n - 1));
      BigEndianFirst(x / 256, n - 1);
    }
  }

  // ---------------------------------------------------------------------
  // Definite lengths, X.690 section 8.1.3

  /** The largest length the writer can encode (three length octets). */
  const MaxLength: nat := 0xFF_FFFF

  /** The length octets the writer emits: the short form up to 0x7F, else the
      long form 0x80|n followed by the n length octets. */
  function LengthBytes(len: nat): (r: seq<Byte>)
    requires len <= MaxLength
    ensures 1 <= |r| <= 4
  {
    if len <= 0x7F then [len]
    else if len <= 0xFF then [0x81, len]
    else if len <= 0xFFFF then [0x82, len / 0x100, len % 0x100]
    else [0x83, len / 0x1_0000, len / 0x100 % 0x100, len % 0x100]
  }

  /** LengthBytes is the definite form of X.690 8.1.3 and is minimal: the
      short form exactly when it fits, else an initial octet 0x80|n followed
      by n octets holding len with no leading zero octet. */
  lemma LengthBytesForm(len: nat)
    requires len <= MaxLength
    ensures var r := LengthBytes(len);
      && (|r| == 1 <==> len <= 0x7F)
      && (|r| == 1 ==> r[0] == len)
      && (|r| > 1 ==> r[0] == 0x80 + (|r| - 1) && UnsignedBE(r[1..]) == len
                      && len > 0x7F && r[1] != 0)
  {
    var r := LengthBytes(len);
    if len > 0xFF {
      var t := r[1..];
      UnsignedBESnoc(t[..|t| - 1], t[|t| - 1]);
      assert t[..|t| - 1] + [t[|t| - 1]] == t;
      if len <= 0xFFFF {
        assert UnsignedBE([t[0]]) == t[0] by { UnsignedBESnoc([], t[0]); }
        assert t[..1] == [t[0]];
      } else {
        assert t[..2] == [t[0]] + [t[1]];
        assert UnsignedBE([t[0]]) == t[0] by { UnsignedBESnoc([], t[0]); }
        UnsignedBESnoc([t[0]], t[1]);
      }
    } else if len > 0x7F {
      assert r[1..] == [] + [len];
      UnsignedBESnoc([], len);
    }
  }

  // ---------------------------------------------------------------------
  // Two's-complement integers, X.690 section 8.3

  /** i has an n-octet two's-complement representation. */
  predicate Fits(i: int, n: nat) {
    n >= 1 && -128 * Pow256(n - 1) <= i < 128 * Pow256(n - 1)
  }

  /** The number of content octets the writer uses for an int32. */
  function MinIntSize(i: int): (n: nat)
    requires IsInt32(i)
    ensures 1 <= n <= 4 && Fits(i, n)
    ensures n > 1 ==> !Fits(i, n - 1)
  {
    Pow256Values();
    if Fits(i, 1) then 1 else if Fits(i, 2) then 2 else if Fits(i, 3) then 3 else 4
  }

  lemma FitsMonotone(i: int, m: nat, n: nat)
    requires Fits(i, m) && m <= n
    ensures Fits(i, n)
  {
    Pow256Monotone(m - 1, n - 1);
  }

  lemma MinIntSizeAtMost(i: int, m: nat)
    requires IsInt32(i) && Fits(i, m)
    ensures MinIntSize(i) <= m
  {
    var n := MinIntSize(i);
    if n > m {
      FitsMonotone(i, m, n - 1);
    }
  }

  /** The writer's trimming test: after 4 - sz left shifts by eight bits, the
      top nine bits of the register agree exactly when i fits in sz - 1 octets. */
  lemma ShiftedFits(i: int, sz: nat)
    requires 2 <= sz <= 4
    ensures Fits(i, sz - 1) <==> -0x80_0000 <= i * Pow256(4 - sz) < 0x80_0000
  {
    Pow256Values();
  }

  /** The n-octet two's-complement representation of i, most significant first. */
  function IntBytes(i: int, n: nat): (r: seq<Byte>)
    ensures |r| == n
  {
    BigEndian(i % Pow256(n), n)
  }

  /** The value of a two's-complement octet string: the unsigned value, less
      256^n when the sign bit of the first octet is set. */
  function SignedBE(bs: seq<Byte>): int {
    UnsignedBE(bs) - (if |bs| > 0 && bs[0] >= 0x80 then Pow256(|bs|) else 0)
  }

  /** Decoding the n-octet representation of i gives back i. */
  lemma IntBytesRoundTrip(i: int, n: nat)
    requires Fits(i, n)
    ensures SignedBE(IntBytes(i, n)) == i
  {
    var p, h := Pow256(n), Pow256(n - 1);
    assert p == 256 * h;
    var x := i % p;
    if i >= 0 {
      DivModUnique(i, p, 0, i);
    } else {
      DivModUnique(i, p, -1, i + p);
    }
    UnsignedBigEndian(x, n);
    DivModUnique(x, p, 0, x);
    BigEndianFirst(x, n);
    DivAtLeast(x, h, 128);
  }

  /** Every octet string of length n >= 1 is the n-octet representation of
      its two's-complement value, which fits in n octets. */
  lemma SignedBEInverse(bs: seq<Byte>)
    requires |bs| >= 1
    ensures Fits(SignedBE(bs), |bs|)
    ensures IntBytes(SignedBE(bs), |bs|) == bs
  {
    var n := |bs|;
    var u := UnsignedBE(bs);
    var p, h := Pow256(n), Pow256(n - 1);
    assert p == 256 * h;
    var s := SignedBE(bs);
    LeadBit(bs);
    if bs[0] >= 0x80 {
      assert s == u as int - p;
      DivModUnique(s, p, -1, u);
    } else {
      assert s == u;
      DivModUnique(s, p, 0, u);
    }
    assert IntBytes(s, n) == BigEndian(u, n);
    BigEndianUnsigned(bs);
  }

  /** The sign bit of the first octet is set exactly when the unsigned value
      reaches half of 256^n. */
  lemma LeadBit(bs: seq<Byte>)
    requires |bs| >= 1
    ensures bs[0] >= 0x80 <==> UnsignedBE(bs) >= 128 * Pow256(|bs| - 1)
  {
    var h, u := Pow256(|bs| - 1), UnsignedBE(bs[1..]);
    UnsignedBECons(bs);
    LeadDigit(bs[0], h, u, 128);
  }

  /** No string of fewer than MinIntSize(i) octets has the value i, so the
      writer's content is the shortest two's-complement encoding. */
  lemma MinIntSizeIsLeast(i: int, bs: seq<Byte>)
    requires IsInt32(i)
    requires 1 <= |bs| < MinIntSize(i)
    ensures SignedBE(bs) != i
  {
    SignedBEInverse(bs);
    if SignedBE(bs) == i {
      FitsMonotone(i, |bs|, MinIntSize(i) - 1);
    }
  }

  /** Octet n-1-j of BigEndian(x, n) is digit j of x in base 256. */
  lemma {:induction false} BigEndianDigit(x: nat, n: nat, j: nat)
    requires j < n
    ensures BigEndian(x, n)[n - 1 - j] == x / Pow256(j) % 256
  {
    if j > 0 {
      BigEndianDigit(x / 256, n - 1, j - 1);
      Breakdown(x, 256, Pow256(j - 1));
    }
  }

  /** The top octet of the 32-bit register holding i shifted left 4 - s
      times is the leading octet of the low s octets of i. */
  lemma RegisterTop(i: int, s: nat)
    requires 1 <= s <= 4
    ensures ToUint32(i * Pow256(4 - s)) / 0x100_0000 == i % Pow256(s) / Pow256(s - 1)
  {
    var e := 4 - s;
    Pow256Values();
    Pow256Add(e, s);
    MulMod(i, Pow256(e), Pow256(s));
    var y := i % Pow256(s);
    Pow256Add(e, s - 1);
    Breakdown(y * Pow256(e), Pow256(e), Pow256(s - 1));
    DivModUnique(y * Pow256(e), Pow256(e), y, 0);
  }

  /** Octet n - s of the n-octet representation of i is the leading octet
      of its low s octets. */
  lemma IntBytesOctet(i: int, n: nat, s: nat)
    requires 1 <= s <= n
    ensures IntBytes(i, n)[n - s] == i % Pow256(s) / Pow256(s - 1)
  {
    var x := i % Pow256(n);
    var h := Pow256(s - 1);
    BigEndianDigit(x, n, s - 1);
    var d := x / h % 256;
    assert Pow256(s) == h * 256;
    Breakdown(x, h, 256);
    DivModUnique(x % Pow256(s), h, d, x % h);
    Pow256Add(s, n - s);
    ModMod(i, Pow256(s), Pow256(n - s));
  }

  /** The octet the writer takes from the top of its 32-bit register after
      4 - s left shifts of i is octet n - s of the n-octet representation. */
  lemma IntBytesRegister(i: int, n: nat, s: nat)
    requires 1 <= s <= n <= 4
    ensures ToUint32(i * Pow256(4 - s)) / 0x100_0000 == IntBytes(i, n)[n - s]
  {
    RegisterTop(i, s);
    IntBytesOctet(i, n, s);
  }

  // ---------------------------------------------------------------------
  // Base-128 subidentifiers, X.690 section 8.19.2

  /** The octets before the last one of a subidentifier whose leading 7-bit
      groups have the value y; each has bit 8 set. */
  function Groups(y: nat): (r: seq<Byte>)
    decreases y
  {
    if y == 0 then [] else Groups(y / 128) + [y % 128 + 0x80]
  }

  /** A subidentifier as base-128 digits, most significant first, bit 8 set on
      every octet except the last. */
  function Base128(x: nat): (r: seq<Byte>)
    ensures |r| >= 1 && r[|r| - 1] < 0x80
  {
    Groups(x / 128) + [x % 128]
  }

  /** The number spelt by the 7-bit groups of a string of octets. */
  function Base128Value(bs: seq<Byte>): nat {
    if bs == [] then 0 else Base128Value(bs[..|bs| - 1]) * 128 + bs[|bs| - 1] % 128
  }

  lemma Base128ValueSnoc(bs: seq<Byte>, b: Byte)
    ensures Base128Value(bs + [b]) == Base128Value(bs) * 128 + b % 128
  {
    assert (bs + [b])[..|bs|] == bs;
  }

  /** Every octet of the leading groups has bit 8 set. */
  lemma {:induction false} GroupsHigh(y: nat)
    ensures forall k :: 0 <= k < |Groups(y)| ==> Groups(y)[k] >= 0x80
    decreases y
  {
    if y > 0 {
      GroupsHigh(y / 128);
    }
  }

  /** Bit 8 is set on every octet of Base128(x) but the last. */
  lemma Base128High(x: nat)
    ensures forall k :: 0 <= k < |Base128(x)| - 1 ==> Base128(x)[k] >= 0x80
  {
    GroupsHigh(x / 128);
  }

  lemma {:induction false} GroupsValue(y: nat)
    ensures Base128Value(Groups(y)) == y
    decreases y
  {
    if y > 0 {
      var q := y / 128;
      var g := Groups(q);
      GroupsValue(q);
      Base128ValueSnoc(g, y % 128 + 0x80);
    }
  }

  lemma {:induction false} GroupsLength(y: nat)
    ensures y == 0 <==> |Groups(y)| == 0
    ensures y > 0 ==> Pow128(|Groups(y)| - 1) <= y < Pow128(|Groups(y)|)
    decreases y
  {
    if y > 0 {
      var q := y / 128;
      var n := |Groups(q)|;
      GroupsLength(q);
      assert |Groups(y)| == n + 1;
      var hi := Pow128(n);
      assert Pow128(n + 1) == 128 * hi;
      DivAtLeast(y, 128, hi);
      if q > 0 {
        assert hi == 128 * Pow128(n - 1);
        DivAtLeast(y, 128, Pow128(n - 1));
      }
    }
  }

  lemma GroupsShape(y: nat)
    ensures Base128Value(Groups(y)) == y
    ensures y == 0 <==> |Groups(y)| == 0
    ensures y > 0 ==> Pow128(|Groups(y)| - 1) <= y < Pow128(|Groups(y)|)
  {
    GroupsValue(y);
    GroupsLength(y);
  }

  /** The 7-bit groups of Base128(x) spell x, and Base128(x) has the fewest
      octets that can: x < 128^|r|, and x >= 128^(|r|-1) unless |r| == 1. */
  lemma Base128Shape(x: nat)
    ensures var r := Base128(x);
      && Base128Value(r) == x
      && x < Pow128(|r|)
      && (|r| > 1 ==> Pow128(|r| - 1) <= x)
  {
    var g := Groups(x / 128);
    GroupsShape(x / 128);
    Base128ValueSnoc(g, x % 128);
    DivAtLeast(x, 128, Pow128(|g|));
    if |g| > 0 {
      DivAtLeast(x, 128, Pow128(|g| - 1));
    }
  }

  /** A subidentifier below 2^32 takes between one and five octets. */
  lemma Base128AtMostFive(x: nat)
    requires x < Two32
    ensures |Base128(x)| <= 5
  {
    Base128Shape(x);
    var n := |Base128(x)|;
    if n > 5 {
      assert Pow128(5) == 0x8_0000_0000;
      Pow128Monotone(5, n - 1);
    }
  }

  /** The subidentifiers of a list of arcs, one after another. */
  function Base128All(arcs: seq<nat>): seq<Byte> {
    if arcs == [] then [] else Base128All(arcs[..|arcs| - 1]) + Base128(arcs[|arcs| - 1])
  }

  /** One step of the `(x << 8) + octet` accumulation of readLength and
      _readTag: the int32 accumulator tracks the unsigned value of the octets
      read so far. */
  lemma AccumulateStep(buf: seq<Byte>, at: int, i: nat)
    ensures ToInt32(ToInt32(UnsignedBE(Octets(buf, at, i))) * 256) + ByteAt(buf, at + i)
            == ToInt32(UnsignedBE(Octets(buf, at, i + 1)))
  {
    var bs, b := Octets(buf, at, i), ByteAt(buf, at + i);
    ShiftAdd(UnsignedBE(bs), 256, b);
    UnsignedBESnoc(bs, b);
  }

  /** The accumulator loop of both readers' readLength and of the current
      reader's _readTag: `acc = (acc << 8) + octet` over n octets from at
      (src/ber/reader.ts:94-96 and 223-226, lib/ber/reader.js:87-88; for an
      octet added to a shifted value `|` and `+` agree). */
  method Accumulate(buf: seq<Byte>, at: int, n: nat) returns (acc: int)
    ensures acc == ToInt32(UnsignedBE(Octets(buf, at, n)))
  {
    acc := 0;
    var i := 0;
    while i < n
      invariant 0 <= i <= n
      invariant acc == ToInt32(UnsignedBE(Octets(buf, at, i)))
    {
      AccumulateStep(buf, at, i);
      acc := ToInt32(acc * 256) + ByteAt(buf, at + i);
      i := i + 1;
    }
  }
}
