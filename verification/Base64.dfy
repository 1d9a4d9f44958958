/**
 The hand-written base64 decoder, against the encoding of section 4 of RFC 4648.
 */
module Base64 {
  import opened Json
  import opened Sequences

  type Bytes = seq<bv8>

  datatype Error = InvalidCharacter | BadLength | BadPadding

  datatype Result = Ok(bytes: Bytes) | Err(error: Error)

  /** Stands for the padding character among the six-bit values. */
  const PAD: bv8 := 64

  // ----- characters -----

  predicate IsWhitespace(byte: bv8) {
    byte == 0x20 || byte == 0x09 || byte == 0x0A || byte == 0x0C || byte == 0x0D
  }

  function ValueOf(byte: bv8): (v: Option<bv8>)
    ensures v.Some? ==> v.value <= PAD
  {
    if 0x41 <= byte <= 0x5A then Some(byte - 0x41)
    else if 0x61 <= byte <= 0x7A then Some(byte - 0x61 + 26)
    else if 0x30 <= byte <= 0x39 then Some(byte - 0x30 + 52)
    else if byte == 0x2B then Some(62)
    else if byte == 0x2F then Some(63)
    else if byte == 0x3D then Some(PAD)
    else None
  }

  function CharOf(v: bv8): (byte: bv8)
    requires v <= PAD
    ensures ValueOf(byte) == Some(v) && !IsWhitespace(byte)
  {
    if v < 26 then v + 0x41
    else if v < 52 then v - 26 + 0x61
    else if v < 62 then v - 52 + 0x30
    else if v == 62 then 0x2B
    else if v == 63 then 0x2F
    else 0x3D
  }

  lemma CharOfValue(byte: bv8)
    requires ValueOf(byte).Some?
    ensures CharOf(ValueOf(byte).value) == byte
  {
  }

  function NonSpace(byte: bv8): Option<bv8> {
    if IsWhitespace(byte) then None else Some(byte)
  }

  function Stripped(text: Bytes): Bytes {
    Collect(text, NonSpace)
  }

  // ----- decoding -----

  function FirstByte(a: bv8, b: bv8): bv8 { (a << 2) | (b >> 4) }
  function SecondByte(b: bv8, c: bv8): bv8 { ((b & 0x0F) << 4) | (c >> 2) }
  function ThirdByte(c: bv8, d: bv8): bv8 { ((c & 0x03) << 6) | d }

  /** The bytes of four values; padding may only stand at the end of the four, twice at most. */
  function DecodeQuad(a: bv8, b: bv8, c: bv8, d: bv8): (r: Option<Bytes>) {
    if a == PAD || b == PAD || (c == PAD && d != PAD) then None
    else if c == PAD then Some([FirstByte(a, b)])
    else if d == PAD then Some([FirstByte(a, b), SecondByte(b, c)])
    else Some([FirstByte(a, b), SecondByte(b, c), ThirdByte(c, d)])
  }

  function DecodeQuads(values: Bytes): (r: Option<Bytes>)
    requires |values| % 4 == 0
    decreases |values|
  {
    if values == [] then Some([])
    else
      var n := |values| - 4;
      var before := DecodeQuads(values[..n]);
      var last := DecodeQuad(values[n], values[n + 1], values[n + 2], values[n + 3]);
      if before.None? || last.None? then None else Some(before.value + last.value)
  }

  predicate AllValues(text: Bytes) {
    forall i :: 0 <= i < |text| ==> ValueOf(text[i]).Some?
  }

  function Values(text: Bytes): (values: Bytes)
    requires AllValues(text)
    ensures |values| == |text|
    ensures forall i :: 0 <= i < |text| ==> Some(values[i]) == ValueOf(text[i])
  {
    seq(|text|, i requires 0 <= i < |text| => ValueOf(text[i]).value)
  }

  /** What decoding a text means: the first thing wrong, or the bytes of its quads. */
  function Decoded(text: Bytes): (r: Result) {
    var chars := Stripped(text);
    if !AllValues(chars) then Err(InvalidCharacter)
    else if |chars| % 4 != 0 then Err(BadLength)
    else if DecodeQuads(Values(chars)).None? then Err(BadPadding)
    else Ok(DecodeQuads(Values(chars)).value)
  }

  /** The first pass: the values of all characters that are not white space. */
  method ReadValues(text: Bytes) returns (r: Option<Bytes>)
    ensures r.None? <==> !AllValues(Stripped(text))
    ensures r.Some? ==> r.value == Values(Stripped(text))
  {
    var values: Bytes := [];
    for i := 0 to |text|
      invariant AllValues(Stripped(text[..i])) && values == Values(Stripped(text[..i]))
    {
      TakeOneMore(text, i);
      assert text[..i + 1][..i] == text[..i];
      if !IsWhitespace(text[i]) {
        var value := ValueOf(text[i]);
        if value.None? {
          StrippedPrefix(text, i);
          return None;
        }
        values := values + [value.value];
      }
    }
    TakeAll(text);
    r := Some(values);
  }

  lemma StrippedPrefix(text: Bytes, i: nat)
    requires i < |text| && !IsWhitespace(text[i]) && ValueOf(text[i]).None?
    ensures !AllValues(Stripped(text))
  {
    CollectMember(text, NonSpace, text[i]);
    var j :| 0 <= j < |Stripped(text)| && Stripped(text)[j] == text[i];
  }

  /** One turn of the loop: the padding checks, then the one, two or three bytes. */
  method DecodeChunk(a: bv8, b: bv8, c: bv8, d: bv8) returns (r: Option<Bytes>)
    ensures r == DecodeQuad(a, b, c, d)
  {
    hide FirstByte, SecondByte, ThirdByte;
    if a == PAD || b == PAD || (c == PAD && d != PAD) {
      return None;
    }
    var out := [FirstByte(a, b)];
    if c != PAD {
      out := out + [SecondByte(b, c)];
    }
    if d != PAD {
      out := out + [ThirdByte(c, d)];
    }
    assert out == DecodeQuad(a, b, c, d).value;
    r := Some(out);
  }

  /** The second pass: chunk after chunk of four values. */
  method DecodeChunks(values: Bytes) returns (r: Option<Bytes>)
    requires |values| % 4 == 0
    ensures r == DecodeQuads(values)
  {
    hide DecodeQuad;
    var out: Bytes := [];
    var i := 0;
    while i < |values|
      invariant 0 <= i <= |values| && i % 4 == 0
      invariant DecodeQuads(values[..i]) == Some(out)
    {
      assert values[..i + 4][..i] == values[..i];
      var chunk := DecodeChunk(values[i], values[i + 1], values[i + 2], values[i + 3]);
      if chunk.None? {
        BadQuadSpoils(values, i);
        return None;
      }
      out := out + chunk.value;
      i := i + 4;
    }
    TakeAll(values);
    r := Some(out);
  }

  method Decode(text: Bytes) returns (r: Result)
    ensures r == Decoded(text)
  {
    hide DecodeQuads, Values, AllValues, Stripped;
    var values := ReadValues(text);
    if values.None? {
      return Err(InvalidCharacter);
    }
    if |values.value| % 4 != 0 {
      return Err(BadLength);
    }
    var bytes := DecodeChunks(values.value);
    r := if bytes.None? then Err(BadPadding) else Ok(bytes.value);
  }

  lemma {:induction false} BadQuadSpoils(values: Bytes, i: nat)
    requires |values| % 4 == 0 && i % 4 == 0 && i + 4 <= |values| && DecodeQuads(values[..i + 4]).None?
    ensures DecodeQuads(values).None?
    decreases |values|
  {
    if i + 4 == |values| {
      assert values[..i + 4] == values;
    } else {
      var n := |values| - 4;
      assert values[..n][..i + 4] == values[..i + 4];
      BadQuadSpoils(values[..n], i);
    }
  }

  // ----- encoding -----

  function FirstValue(x: bv8): bv8 { x >> 2 }
  function SecondValue(x: bv8, y: bv8): bv8 { ((x & 0x03) << 4) | (y >> 4) }
  function ThirdValue(y: bv8, z: bv8): bv8 { ((y & 0x0F) << 2) | (z >> 6) }
  function FourthValue(z: bv8): bv8 { z & 0x3F }

  function EncodeTail(bytes: Bytes): (values: Bytes)
    requires |bytes| <= 3
    ensures forall i :: 0 <= i < |values| ==> values[i] <= PAD
    ensures |values| == if bytes == [] then 0 else 4
  {
    if bytes == [] then []
    else if |bytes| == 1 then [FirstValue(bytes[0]), SecondValue(bytes[0], 0), PAD, PAD]
    else if |bytes| == 2 then [FirstValue(bytes[0]), SecondValue(bytes[0], bytes[1]), ThirdValue(bytes[1], 0), PAD]
    else [FirstValue(bytes[0]), SecondValue(bytes[0], bytes[1]), ThirdValue(bytes[1], bytes[2]), FourthValue(bytes[2])]
  }

  /** Three bytes become four values; one or two left over are padded. */
  function EncodeValues(bytes: Bytes): (values: Bytes)
    ensures |values| % 4 == 0
    ensures forall i :: 0 <= i < |values| ==> values[i] <= PAD
    decreases |bytes|
  {
    if |bytes| <= 3 then EncodeTail(bytes) else EncodeTail(bytes[..3]) + EncodeValues(bytes[3..])
  }

  function Encode(bytes: Bytes): (text: Bytes)
    ensures |text| == |EncodeValues(bytes)|
  {
    var values := EncodeValues(bytes);
    seq(|values|, i requires 0 <= i < |values| => CharOf(values[i]))
  }

  /** The bits of three bytes, spread over four values, come together again. */
  lemma BitsRoundTrip(x: bv8, y: bv8, z: bv8)
    ensures FirstValue(x) < PAD && SecondValue(x, y) < PAD && ThirdValue(y, z) < PAD && FourthValue(z) < PAD
    ensures FirstByte(FirstValue(x), SecondValue(x, y)) == x
    ensures SecondByte(SecondValue(x, y), ThirdValue(y, z)) == y
    ensures ThirdByte(ThirdValue(y, z), FourthValue(z)) == z
  {
  }

  lemma QuadRoundTrip(bytes: Bytes)
    requires 1 <= |bytes| <= 3
    ensures var v := EncodeTail(bytes); DecodeQuad(v[0], v[1], v[2], v[3]) == Some(bytes)
  {
    hide FirstValue, SecondValue, ThirdValue, FourthValue, FirstByte, SecondByte, ThirdByte;
    if |bytes| == 1 {
      BitsRoundTrip(bytes[0], 0, 0);
      assert bytes == [bytes[0]];
    } else if |bytes| == 2 {
      BitsRoundTrip(bytes[0], bytes[1], 0);
      assert bytes == [bytes[0], bytes[1]];
    } else {
      BitsRoundTrip(bytes[0], bytes[1], bytes[2]);
      assert bytes == [bytes[0], bytes[1], bytes[2]];
    }
  }

  // ----- laws -----

  function Joined(a: Option<Bytes>, b: Option<Bytes>): Option<Bytes> {
    if a.None? || b.None? then None else Some(a.value + b.value)
  }

  lemma JoinedAssociates(x: Option<Bytes>, y: Option<Bytes>, z: Option<Bytes>)
    ensures Joined(Joined(x, y), z) == Joined(x, Joined(y, z))
  {
    if x.Some? && y.Some? && z.Some? {
      assert (x.value + y.value) + z.value == x.value + (y.value + z.value);
    }
  }

  lemma NothingDecodes(x: Option<Bytes>)
    ensures DecodeQuads([]) == Some([]) && Joined(x, Some([])) == x
  {
    if x.Some? {
      assert x.value + [] == x.value;
    }
  }

  lemma LastQuad(values: Bytes)
    requires values != [] && |values| % 4 == 0
    ensures var n := |values| - 4;
            DecodeQuads(values) ==
            Joined(DecodeQuads(values[..n]), DecodeQuad(values[n], values[n + 1], values[n + 2], values[n + 3]))
  {
    hide DecodeQuad;
  }

  /** Quads are decoded independently of one another. */
  lemma {:induction false} QuadsConcat(a: Bytes, b: Bytes)
    requires |a| % 4 == 0 && |b| % 4 == 0
    ensures DecodeQuads(a + b) == Joined(DecodeQuads(a), DecodeQuads(b))
    decreases |b|
  {
    hide DecodeQuad, DecodeQuads;
    if b == [] {
      assert a + b == a;
      NothingDecodes(DecodeQuads(a));
    } else {
      var n := |b| - 4;
      QuadsConcat(a, b[..n]);
      LastQuad(b);
      LastQuad(a + b);
      assert (a + b)[..|a + b| - 4] == a + b[..n];
      JoinedAssociates(DecodeQuads(a), DecodeQuads(b[..n]), DecodeQuad(b[n], b[n + 1], b[n + 2], b[n + 3]));
    }
  }

  lemma {:induction false} ValuesRoundTrip(bytes: Bytes)
    ensures DecodeQuads(EncodeValues(bytes)) == Some(bytes)
    decreases |bytes|
  {
    hide DecodeQuad;
    if |bytes| > 3 {
      TailDecodes(bytes[..3]);
      ValuesRoundTrip(bytes[3..]);
      QuadsConcat(EncodeTail(bytes[..3]), EncodeValues(bytes[3..]));
      assert bytes[..3] + bytes[3..] == bytes;
    } else {
      TailDecodes(bytes);
    }
  }

  lemma TailDecodes(bytes: Bytes)
    requires |bytes| <= 3
    ensures DecodeQuads(EncodeTail(bytes)) == Some(bytes)
  {
    hide DecodeQuad, EncodeTail;
    var v := EncodeTail(bytes);
    if bytes != [] {
      QuadRoundTrip(bytes);
      assert v[..0] == [];
      assert DecodeQuads([]) == Some([]);
      assert [] + bytes == bytes;
    } else {
      assert v == [];
    }
  }

  /** Whatever white space is put into the encoding of some bytes, decoding gives the bytes back. */
  lemma RoundTrip(bytes: Bytes, text: Bytes)
    requires Stripped(text) == Encode(bytes)
    ensures Decoded(text) == Ok(bytes)
  {
    var chars := Stripped(text);
    assert Values(chars) == EncodeValues(bytes);
    ValuesRoundTrip(bytes);
  }

  /** The encoding itself holds no white space. */
  lemma {:induction false} NothingToStrip(text: Bytes)
    requires forall i :: 0 <= i < |text| ==> !IsWhitespace(text[i])
    ensures Stripped(text) == text
  {
    if text != [] {
      NothingToStrip(text[..|text| - 1]);
      assert text == text[..|text| - 1] + [text[|text| - 1]];
    }
  }

  lemma EncodingDecodes(bytes: Bytes)
    ensures Decoded(Encode(bytes)) == Ok(bytes)
  {
    NothingToStrip(Encode(bytes));
    RoundTrip(bytes, Encode(bytes));
  }

  /** Texts of whole quads decode piece by piece, and the whole is accepted only if both pieces are. */
  lemma PiecewiseDecoding(a: Bytes, b: Bytes)
    requires |Stripped(a)| % 4 == 0
    ensures Decoded(a).Ok? && Decoded(b).Ok? ==> Decoded(a + b) == Ok(Decoded(a).bytes + Decoded(b).bytes)
    ensures Decoded(a + b).Ok? ==> Decoded(a).Ok? && Decoded(b).Ok?
  {
    hide DecodeQuads, Values, AllValues;
    CollectConcat(a, b, NonSpace);
    ValuesConcat(Stripped(a), Stripped(b));
    if AllValues(Stripped(a)) && AllValues(Stripped(b)) && |Stripped(b)| % 4 == 0 {
      QuadsConcat(Values(Stripped(a)), Values(Stripped(b)));
    }
  }

  lemma ValuesConcat(x: Bytes, y: Bytes)
    ensures AllValues(x + y) <==> AllValues(x) && AllValues(y)
    ensures AllValues(x) && AllValues(y) ==> Values(x + y) == Values(x) + Values(y)
  {
    hide ValueOf;
    assert forall i :: 0 <= i < |x| ==> (x + y)[i] == x[i];
    assert forall i :: 0 <= i < |y| ==> (x + y)[|x| + i] == y[i];
  }

  // ----- which texts are accepted -----

  /** Padding may only stand in the last place, or in the last two. */
  predicate PaddingInPlace(values: Bytes, q: nat)
    requires 4 * q + 4 <= |values|
  {
    && values[4 * q] != PAD && values[4 * q + 1] != PAD
    && (values[4 * q + 2] == PAD ==> values[4 * q + 3] == PAD)
  }

  ghost predicate AllInPlace(values: Bytes) {
    forall q: nat :: 4 * q + 4 <= |values| ==> PaddingInPlace(values, q)
  }

  lemma LastInPlace(values: Bytes)
    requires values != [] && |values| % 4 == 0
    ensures AllInPlace(values) <==> AllInPlace(values[..|values| - 4]) && PaddingInPlace(values, |values| / 4 - 1)
  {
    var n := |values| - 4;
    forall q: nat | 4 * q + 4 <= n
      ensures PaddingInPlace(values[..n], q) <==> PaddingInPlace(values, q)
    {
      assert values[..n][4 * q] == values[4 * q];
    }
    hide PaddingInPlace;
    if AllInPlace(values[..n]) && PaddingInPlace(values, |values| / 4 - 1) {
      forall q: nat | 4 * q + 4 <= |values|
        ensures PaddingInPlace(values, q)
      {
        if 4 * q + 4 <= n {
          assert PaddingInPlace(values[..n], q);
        }
      }
    }
  }

  lemma {:induction false} QuadsDecodeExactly(values: Bytes)
    requires |values| % 4 == 0
    ensures DecodeQuads(values).Some? <==> AllInPlace(values)
    decreases |values|
  {
    if values != [] {
      LastInPlace(values);
      QuadsDecodeExactly(values[..|values| - 4]);
    }
  }

  /** A text is accepted exactly when all its characters have a value, four by four, with padding in place. */
  lemma AcceptedExactly(text: Bytes)
    ensures var chars := Stripped(text);
            Decoded(text).Ok? <==> AllValues(chars) && |chars| % 4 == 0 && AllInPlace(Values(chars))
  {
    hide DecodeQuads, AllInPlace, AllValues, Values;
    var chars := Stripped(text);
    if AllValues(chars) && |chars| % 4 == 0 {
      QuadsDecodeExactly(Values(chars));
    }
  }

  lemma BitsFit(a: bv8, b: bv8, c: bv8, d: bv8)
    requires a < PAD && b < PAD
    ensures (a << 2) >> 2 == a && (a << 2) & (b >> 4) == 0
    ensures c < PAD ==> ((b & 0x0F) << 4) >> 4 == b & 0x0F && ((b & 0x0F) << 4) & (c >> 2) == 0
    ensures c < PAD && d < PAD ==> ((c & 0x03) << 6) >> 6 == c & 0x03 && ((c & 0x03) << 6) & d == 0
  {
  }

  /** In an accepted text no shift pushes a bit out of its byte, and no two parts of a byte overlap. */
  lemma ShiftsLoseNothing(text: Bytes, q: nat)
    requires Decoded(text).Ok? && 4 * q + 4 <= |Stripped(text)|
    ensures var v := Values(Stripped(text));
            var a, b, c, d := v[4 * q], v[4 * q + 1], v[4 * q + 2], v[4 * q + 3];
            && (a << 2) >> 2 == a && (a << 2) & (b >> 4) == 0
            && (c != PAD ==> ((b & 0x0F) << 4) >> 4 == b & 0x0F && ((b & 0x0F) << 4) & (c >> 2) == 0)
            && (d != PAD ==> ((c & 0x03) << 6) >> 6 == c & 0x03 && ((c & 0x03) << 6) & d == 0)
  {
    hide Decoded;
    AcceptedExactly(text);
    var v := Values(Stripped(text));
    assert PaddingInPlace(v, q);
    BitsFit(v[4 * q], v[4 * q + 1], v[4 * q + 2], v[4 * q + 3]);
  }

  // ----- which texts are the encoding of what they decode to -----

  predicate PlainQuad(v: Bytes)
    requires |v| == 4
  {
    v[0] < PAD && v[1] < PAD && v[2] < PAD && v[3] < PAD
  }

  /** Padding with zero spare bits, as an encoder writes it. */
  predicate PaddedQuad(v: Bytes)
    requires |v| == 4
  {
    && v[0] < PAD && v[1] < PAD && v[3] == PAD
    && (if v[2] == PAD then v[1] & 0x0F == 0 else v[2] < PAD && v[2] & 0x03 == 0)
  }

  /** Plain quads, and at most one padded quad at the very end. */
  predicate Canonical(values: Bytes)
    requires |values| % 4 == 0
    decreases |values|
  {
    values == [] ||
    (PlainQuad(values[..4]) && Canonical(values[4..])) ||
    (|values| == 4 && PaddedQuad(values))
  }

  lemma PlainQuadReencodes(v: Bytes)
    requires |v| == 4 && PlainQuad(v)
    ensures DecodeQuad(v[0], v[1], v[2], v[3]).Some?
    ensures var bytes := DecodeQuad(v[0], v[1], v[2], v[3]).value; |bytes| == 3 && EncodeTail(bytes) == v
  {
  }

  lemma PaddedQuadReencodes(v: Bytes)
    requires |v| == 4 && PaddedQuad(v)
    ensures DecodeQuad(v[0], v[1], v[2], v[3]).Some?
    ensures var bytes := DecodeQuad(v[0], v[1], v[2], v[3]).value; |bytes| <= 2 && EncodeTail(bytes) == v
  {
  }

  lemma TailIsCanonical(bytes: Bytes)
    requires 1 <= |bytes| <= 3
    ensures if |bytes| == 3 then PlainQuad(EncodeTail(bytes)) else PaddedQuad(EncodeTail(bytes))
  {
  }

  lemma {:induction false} EncodingIsCanonical(bytes: Bytes)
    ensures Canonical(EncodeValues(bytes))
    decreases |bytes|
  {
    hide EncodeTail, PlainQuad, PaddedQuad;
    var v := EncodeValues(bytes);
    if |bytes| > 3 {
      TailIsCanonical(bytes[..3]);
      EncodingIsCanonical(bytes[3..]);
      assert v[..4] == EncodeTail(bytes[..3]) && v[4..] == EncodeValues(bytes[3..]);
    } else if bytes != [] {
      TailIsCanonical(bytes);
      assert v[..4] == v && v[4..] == [];
    }
  }

  lemma {:induction false} CanonicalReencodes(v: Bytes)
    requires |v| % 4 == 0 && Canonical(v)
    ensures DecodeQuads(v).Some? && EncodeValues(DecodeQuads(v).value) == v
    decreases |v|
  {
    hide EncodeTail, DecodeQuad, PlainQuad, PaddedQuad;
    if v != [] {
      var quad, rest := v[..4], v[4..];
      assert quad + rest == v;
      OneQuad(quad);
      if PlainQuad(quad) && Canonical(rest) {
        PlainQuadReencodes(quad);
        CanonicalReencodes(rest);
        QuadsConcat(quad, rest);
        var x, y := DecodeQuads(quad).value, DecodeQuads(rest).value;
        assert (x + y)[..3] == x && (x + y)[3..] == y;
        if y == [] {
          assert x + y == x;
          assert rest == [];
        }
      } else {
        PaddedQuadReencodes(v);
        assert quad == v;
      }
    }
  }

  lemma OneQuad(v: Bytes)
    requires |v| == 4
    ensures DecodeQuads(v) == DecodeQuad(v[0], v[1], v[2], v[3])
  {
    assert v[..0] == [];
    assert DecodeQuads([]) == Some([]);
    var d := DecodeQuad(v[0], v[1], v[2], v[3]);
    if d.Some? {
      assert [] + d.value == d.value;
    }
  }

  /**
   An accepted text is, up to white space, the encoding of the bytes it decodes to
   exactly when its padding comes once, at the end, with zero spare bits.
   */
  lemma ReencodesExactlyWhenCanonical(text: Bytes)
    requires Decoded(text).Ok?
    ensures Encode(Decoded(text).bytes) == Stripped(text) <==> Canonical(Values(Stripped(text)))
  {
    var chars := Stripped(text);
    var values, bytes := Values(chars), Decoded(text).bytes;
    if Canonical(values) {
      CanonicalReencodes(values);
      forall i | 0 <= i < |chars|
        ensures Encode(bytes)[i] == chars[i]
      {
        CharOfValue(chars[i]);
      }
    }
    if Encode(bytes) == chars {
      EncodingIsCanonical(bytes);
      assert values == EncodeValues(bytes);
    }
  }

  const NONZERO_SPARE_BITS: Bytes := [0x51, 0x52, 0x3D, 0x3D] // QR==
  const PADDING_INSIDE: Bytes := [0x51, 0x51, 0x3D, 0x3D, 0x51, 0x51, 0x3D, 0x3D] // QQ==QQ==

  lemma DecodeFour(text: Bytes, bytes: Bytes)
    requires |text| == 4 && AllValues(text) && (forall i :: 0 <= i < |text| ==> !IsWhitespace(text[i]))
    requires var v := Values(text); DecodeQuad(v[0], v[1], v[2], v[3]) == Some(bytes)
    ensures Stripped(text) == text && Decoded(text) == Ok(bytes)
  {
    hide DecodeQuad;
    NothingToStrip(text);
    OneQuad(Values(text));
  }

  lemma EncodeOne(x: bv8)
    ensures |Encode([x])| == 4 && ValueOf(Encode([x])[1]) == Some((x & 0x03) << 4)
  {
    assert EncodeValues([x]) == EncodeTail([x]);
    assert SecondValue(x, 0) == (x & 0x03) << 4;
  }

  /** An accepted text with spare bits set is not the encoding of what it decodes to. */
  lemma SpareBitsAreAccepted()
    ensures Decoded(NONZERO_SPARE_BITS) == Ok([0x41]) && Encode([0x41]) != NONZERO_SPARE_BITS
  {
    hide Decoded, Encode, Stripped;
    DecodeFour(NONZERO_SPARE_BITS, [0x41]);
    EncodeOne(0x41);
  }

  /** Nor is an accepted text with padding inside. */
  lemma InnerPaddingIsAccepted()
    ensures Decoded(PADDING_INSIDE) == Ok([0x41, 0x41]) && Encode([0x41, 0x41]) != PADDING_INSIDE
  {
    hide Decoded, Stripped, DecodeQuad, EncodeTail;
    var one: Bytes := [0x51, 0x51, 0x3D, 0x3D];
    OneLetterDecodes(one);
    assert PADDING_INSIDE == one + one;
    PiecewiseDecoding(one, one);
    assert |Encode([0x41, 0x41])| == 4;
  }

  lemma OneLetterDecodes(text: Bytes)
    requires text == [0x51, 0x51, 0x3D, 0x3D]
    ensures Stripped(text) == text && Decoded(text) == Ok([0x41])
  {
    hide Decoded, Stripped;
    DecodeFour(text, [0x41]);
  }

  // ----- the alphabet and the bits -----

  /** The characters of table 1 of RFC 4648, in the order of their values, and the padding. */
  lemma AlphabetIs(v: bv8)
    ensures v < 26 ==> CharOf(v) == v + 65
    ensures 26 <= v < 52 ==> CharOf(v) == v - 26 + 97
    ensures 52 <= v < 62 ==> CharOf(v) == v - 52 + 48
    ensures CharOf(62) == 43 && CharOf(63) == 47 && CharOf(64) == 61
  {
  }

  /** Tab, line feed, form feed, carriage return and space are skipped, and nothing else. */
  lemma WhiteSpaceIs(byte: bv8)
    ensures IsWhitespace(byte) <==> byte == 9 || byte == 10 || byte == 12 || byte == 13 || byte == 32
  {
  }

  function Joined24(a: bv8, b: bv8, c: bv8, d: bv8): bv24 {
    ((a as bv24) << 18) | ((b as bv24) << 12) | ((c as bv24) << 6) | (d as bv24)
  }

  lemma BytesOfJoined(a: bv8, b: bv8, c: bv8, d: bv8)
    requires a < 64 && b < 64 && c < 64 && d < 64
    ensures FirstByte(a, b) == (Joined24(a, b, c, d) >> 16) as bv8
    ensures SecondByte(b, c) == ((Joined24(a, b, c, d) >> 8) & 0xFF) as bv8
    ensures ThirdByte(c, d) == (Joined24(a, b, c, d) & 0xFF) as bv8
  {
  }

  /** Four values are one number of twenty-four bits, of which the bytes are the upper, middle and lower eight. */
  lemma BytesAreBits(a: bv8, b: bv8, c: bv8, d: bv8)
    requires a < 64 && b < 64 && c < 64 && d < 64
    ensures var n := Joined24(a, b, c, d);
            DecodeQuad(a, b, c, d) == Some([(n >> 16) as bv8, ((n >> 8) & 0xFF) as bv8, (n & 0xFF) as bv8])
  {
    hide FirstByte, SecondByte, ThirdByte, Joined24;
    BytesOfJoined(a, b, c, d);
  }
}
