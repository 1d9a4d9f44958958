/**
 The percent codec of query strings. A text is its UTF-8 bytes.
 */
module QueryText {
  import opened Json
  import opened Sequences
  import opened Utf8

  const SPACE: Byte := 0x20
  const PERCENT: Byte := 0x25
  const AMPERSAND: Byte := 0x26
  const PLUS: Byte := 0x2B
  const EQUALS: Byte := 0x3D
  const QUESTION: Byte := 0x3F

  // ----- encoding -----

  predicate IsUpper(b: Byte) { 0x41 <= b <= 0x5A }
  predicate IsLower(b: Byte) { 0x61 <= b <= 0x7A }
  predicate IsDigit(b: Byte) { 0x30 <= b <= 0x39 }

  /** Letters, digits, hyphen, underscore, dot and tilde stand for themselves. */
  predicate Unreserved(b: Byte) {
    IsUpper(b) || IsLower(b) || IsDigit(b) || b == 0x2D || b == 0x5F || b == 0x2E || b == 0x7E
  }

  function HexDigit(n: int): (b: Byte)
    requires 0 <= n < 16
  {
    if n < 10 then 0x30 + n else 0x41 + n - 10
  }

  function EncodeByte(b: Byte): (r: Bytes) {
    if Unreserved(b) then [b]
    else if b == SPACE then [PLUS]
    else [PERCENT, HexDigit(b / 16), HexDigit(b % 16)]
  }

  function Encoded(text: Bytes): (r: Bytes) {
    if text == [] then [] else EncodeByte(text[0]) + Encoded(text[1..])
  }

  lemma {:induction false} EncodedConcat(a: Bytes, b: Bytes)
    ensures Encoded(a + b) == Encoded(a) + Encoded(b)
  {
    if a == [] {
      assert a + b == b;
    } else {
      assert (a + b)[1..] == a[1..] + b;
      EncodedConcat(a[1..], b);
    }
  }

  method Encode(text: Bytes) returns (out: Bytes)
    ensures out == Encoded(text)
  {
    out := [];
    for i := 0 to |text|
      invariant out == Encoded(text[..i])
    {
      TakeOneMore(text, i);
      EncodedConcat(text[..i], [text[i]]);
      assert Encoded([text[i]]) == EncodeByte(text[i]) + Encoded([]);
      out := out + EncodeByte(text[i]);
    }
    TakeAll(text);
  }

  /** What an encoded text is made of: none of the characters with a meaning in a query. */
  predicate Safe(b: Byte) {
    Unreserved(b) || b == PLUS || b == PERCENT
  }

  lemma {:induction false} EncodedIsSafe(text: Bytes)
    ensures forall i :: 0 <= i < |Encoded(text)| ==> Safe(Encoded(text)[i])
  {
    if text != [] {
      EncodedIsSafe(text[1..]);
    }
  }

  /** The percent encoding of a text of characters. */
  function PercentEncoded(s: string): (r: string)
    ensures EncodeText(r) == Encoded(EncodeText(s))
  {
    var bytes := Encoded(EncodeText(s));
    EncodedIsSafe(EncodeText(s));
    EncodeAscii(AsciiText(bytes), bytes);
    AsciiText(bytes)
  }

  // ----- decoding -----

  function HexValue(b: Byte): (n: Option<int>)
    ensures n.Some? ==> 0 <= n.value < 16 && b < 128 && b != PERCENT
  {
    if IsDigit(b) then Some(b - 0x30)
    else if 0x41 <= b <= 0x46 then Some(b - 0x41 + 10)
    else if 0x61 <= b <= 0x66 then Some(b - 0x61 + 10)
    else None
  }

  /** Two characters read as a hexadecimal byte; like the library, this takes a plus sign before one digit. */
  function ParseHex(x: Byte, y: Byte): (b: Option<Byte>) {
    if x == PLUS then HexValue(y)
    else if HexValue(x).Some? && HexValue(y).Some? then Some(16 * HexValue(x).value + HexValue(y).value)
    else None
  }

  /** The two characters after a percent sign can be cut out of the text: neither cut is inside a character. */
  predicate CanCut(text: Bytes)
    requires |text| > 2
  {
    !Continuation(text[1]) && (|text| > 3 ==> !Continuation(text[3]))
  }

  /** The decoded bytes; nothing when a cut falls inside a character, where the program stops. */
  function Decoded(text: Bytes): (r: Option<Bytes>)
    decreases |text|
  {
    if text == [] then Some([])
    else if text[0] == PERCENT && |text| > 2 then
      if !CanCut(text) then None
      else if ParseHex(text[1], text[2]).Some? then Prepend(ParseHex(text[1], text[2]).value, Decoded(text[3..]))
      else Prepend(PERCENT, Decoded(text[1..]))
    else Prepend(if text[0] == PLUS then SPACE else text[0], Decoded(text[1..]))
  }

  function Prepend(b: Byte, rest: Option<Bytes>): Option<Bytes> {
    if rest.Some? then Some([b] + rest.value) else None
  }

  function Append(before: Bytes, rest: Option<Bytes>): Option<Bytes> {
    if rest.Some? then Some(before + rest.value) else None
  }

  lemma AppendPrepend(before: Bytes, b: Byte, rest: Option<Bytes>)
    ensures Append(before, Prepend(b, rest)) == Append(before + [b], rest)
  {
    if rest.Some? {
      assert before + ([b] + rest.value) == before + [b] + rest.value;
    }
  }

  /** The decoded bytes read as text. */
  function DecodedText(text: Bytes): Option<Bytes> {
    if Decoded(text).Some? then Some(Lossy(Decoded(text).value)) else None
  }

  method Decode(text: Bytes) returns (r: Option<Bytes>)
    ensures r == DecodedText(text)
  {
    var out: Bytes := [];
    var index := 0;
    assert text[0..] == text;
    assert Append([], Decoded(text)) == Decoded(text) by {
      if Decoded(text).Some? {
        assert [] + Decoded(text).value == Decoded(text).value;
      }
    }
    while index < |text|
      invariant 0 <= index <= |text|
      invariant Append(out, Decoded(text[index..])) == Decoded(text)
    {
      var b, rest := text[index], text[index..];
      assert rest[1..] == text[index + 1..];
      if b == PERCENT && index + 2 < |text| {
        if Continuation(text[index + 1]) || (index + 3 < |text| && Continuation(text[index + 3])) {
          return None;
        }
        assert rest[3..] == text[index + 3..];
        var parsed := ParseHex(text[index + 1], text[index + 2]);
        if parsed.Some? {
          AppendPrepend(out, parsed.value, Decoded(rest[3..]));
          out, index := out + [parsed.value], index + 3;
        } else {
          AppendPrepend(out, b, Decoded(rest[1..]));
          out, index := out + [b], index + 1;
        }
      } else {
        var c := if b == PLUS then SPACE else b;
        AppendPrepend(out, c, Decoded(rest[1..]));
        out, index := out + [c], index + 1;
      }
    }
    assert text[index..] == [];
    assert out + [] == out;
    r := Some(Lossy(out));
  }

  lemma HexRoundTrip(b: Byte)
    ensures ParseHex(HexDigit(b / 16), HexDigit(b % 16)) == Some(b)
  {
  }

  lemma DecodeOne(b: Byte, rest: Bytes)
    requires b != PERCENT
    ensures Decoded([b] + rest) == Prepend(if b == PLUS then SPACE else b, Decoded(rest))
  {
    assert ([b] + rest)[1..] == rest;
  }

  lemma DecodeHex(b: Byte, rest: Bytes)
    requires rest == [] || !Continuation(rest[0])
    ensures Decoded([PERCENT, HexDigit(b / 16), HexDigit(b % 16)] + rest) == Prepend(b, Decoded(rest))
  {
    hide ParseHex, Decoded;
    HexRoundTrip(b);
    DecodePair(HexDigit(b / 16), HexDigit(b % 16), rest, b);
  }

  lemma DecodePair(x: Byte, y: Byte, rest: Bytes, b: Byte)
    requires ParseHex(x, y) == Some(b) && !Continuation(x) && (rest == [] || !Continuation(rest[0]))
    ensures Decoded([PERCENT, x, y] + rest) == Prepend(b, Decoded(rest))
  {
    hide ParseHex;
    assert ([PERCENT, x, y] + rest)[3..] == rest;
  }

  /** Decoding undoes encoding, for every text. */
  lemma {:induction false} DecodeEncoded(text: Bytes)
    ensures Decoded(Encoded(text)) == Some(text)
  {
    hide Decoded, HexDigit;
    if text == [] {
      assert Decoded([]) == Some([]) by { DecodeNothing(); }
    } else {
      var b, rest := text[0], Encoded(text[1..]);
      DecodeEncoded(text[1..]);
      EncodedIsSafe(text[1..]);
      assert text == [b] + text[1..];
      if Unreserved(b) {
        DecodeOne(b, rest);
      } else if b == SPACE {
        DecodeOne(PLUS, rest);
      } else {
        DecodeHex(b, rest);
      }
    }
  }

  /** The text decoded from an encoded text is that text. */
  lemma DecodeTextEncoded(text: Bytes)
    requires Valid(text)
    ensures DecodedText(Encoded(text)) == Some(text)
  {
    DecodeEncoded(text);
    LossyKeepsExactly(text);
  }

  lemma DecodeNothing()
    ensures Decoded([]) == Some([])
  {
  }

  /** A percent sign that is followed by enough text, and by a cut inside a character. */
  predicate BadCutAt(text: Bytes, i: nat) {
    i + 2 < |text| && text[i] == PERCENT && (Continuation(text[i + 1]) || (i + 3 < |text| && Continuation(text[i + 3])))
  }

  lemma ShiftBadCut(text: Bytes, k: nat, i: nat)
    requires k <= |text|
    ensures BadCutAt(text[k..], i) <==> BadCutAt(text, k + i)
  {
  }

  /** Decoding fails exactly on the texts in which some percent sign is followed by such a cut. */
  lemma {:induction false} DecodeFailsExactly(text: Bytes)
    ensures Decoded(text).None? <==> exists i: nat :: BadCutAt(text, i)
    decreases |text|
  {
    if text != [] {
      var k := if text[0] == PERCENT && |text| > 2 && ParseHex(text[1], text[2]).Some? then 3 else 1;
      DecodeFailsExactly(text[k..]);
      forall i: nat {
        ShiftBadCut(text, k, i);
      }
      if BadCutAt(text, 0) {
        assert Decoded(text).None?;
      } else {
        if i: nat :| BadCutAt(text, i) {
          assert i >= k;
          assert BadCutAt(text[k..], i - k);
        }
        if i: nat :| BadCutAt(text[k..], i) {
          assert BadCutAt(text, k + i);
        }
      }
    }
  }

  /** The text `%aé`, wherever it stands: the two characters after the percent sign end inside the é. */
  lemma WideLetterAfterPercentStops(before: Bytes, after: Bytes)
    ensures Decoded([PERCENT, 0x61, 0xC3, 0xA9]) == None
    ensures Decoded(before + [PERCENT, 0x61, 0xC3, 0xA9] + after) == None
  {
    var text := before + [PERCENT, 0x61, 0xC3, 0xA9] + after;
    DecodeFailsExactly(text);
    assert BadCutAt(text, |before|);
    assert !CanCut([PERCENT, 0x61, 0xC3, 0xA9]);
  }

  // ----- single bytes -----

  /** Letters, digits and four marks are written as they are, a space as a plus sign, any other byte as two capital hex digits. */
  lemma EncodedByteIs(b: Byte)
    ensures var hex := [0x30, 0x31, 0x32, 0x33, 0x34, 0x35, 0x36, 0x37, 0x38, 0x39, 0x41, 0x42, 0x43, 0x44, 0x45, 0x46];
            EncodeByte(b) ==
            if 0x41 <= b <= 0x5A || 0x61 <= b <= 0x7A || 0x30 <= b <= 0x39 || b == 0x2D || b == 0x5F || b == 0x2E || b == 0x7E
            then [b] else if b == 0x20 then [0x2B] else [0x25, hex[b / 16], hex[b % 16]]
  {
  }

  /** The value of a hex digit, capital or small. */
  lemma HexDigitIs(n: int)
    requires 0 <= n < 16
    ensures n < 10 ==> HexValue(0x30 + n) == Some(n)
    ensures n >= 10 ==> HexValue(0x41 + n - 10) == Some(n) && HexValue(0x61 + n - 10) == Some(n)
  {
  }

  /** Two hex digits after a percent sign, of either case, stand for their byte; so do a plus sign and one digit. */
  lemma PercentStandsForByte(x: Byte, y: Byte, rest: Bytes)
    requires rest == [] || !Continuation(rest[0])
    ensures HexValue(x).Some? && HexValue(y).Some? ==>
              Decoded([0x25, x, y] + rest) == Prepend(16 * HexValue(x).value + HexValue(y).value, Decoded(rest))
    ensures HexValue(y).Some? ==> Decoded([0x25, 0x2B, y] + rest) == Prepend(HexValue(y).value, Decoded(rest))
    ensures Decoded([0x2B] + rest) == Prepend(0x20, Decoded(rest))
  {
    hide Decoded;
    if HexValue(x).Some? && HexValue(y).Some? {
      DecodePair(x, y, rest, 16 * HexValue(x).value + HexValue(y).value);
    }
    if HexValue(y).Some? {
      DecodePair(0x2B, y, rest, HexValue(y).value);
    }
    DecodeOne(PLUS, rest);
  }

  /** A percent sign that no two hex digits follow stands for itself. */
  lemma PlainPercent(text: Bytes)
    requires text != [] && text[0] == 0x25
    requires |text| > 2 ==> !Continuation(text[1]) && (|text| > 3 ==> !Continuation(text[3]))
    requires |text| > 2 ==> text[1] != 0x2B && (HexValue(text[1]).None? || HexValue(text[2]).None?)
    ensures Decoded(text) == Prepend(0x25, Decoded(text[1..]))
  {
  }
}
