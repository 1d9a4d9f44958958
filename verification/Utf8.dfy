/**
 Bytes as text: well-formed UTF-8 (table 3-7 of the Unicode Standard), and the
 reading of any bytes as text that puts a replacement character for what is not.
 */
module Utf8 {

  type Byte = b: int | 0 <= b < 256

  type Bytes = seq<Byte>

  /** The character U+FFFD. */
  const REPLACEMENT: Bytes := [0xEF, 0xBF, 0xBD]

  /** A byte inside a multi-byte character. */
  predicate Continuation(b: Byte) {
    0x80 <= b < 0xC0
  }

  /** How many bytes a character has that starts with this one; zero when none does. */
  function Wanted(first: Byte): nat {
    if first < 0x80 then 1
    else if 0xC2 <= first <= 0xDF then 2
    else if 0xE0 <= first <= 0xEF then 3
    else if 0xF0 <= first <= 0xF4 then 4
    else 0
  }

  predicate SecondFits(first: Byte, second: Byte) {
    && Continuation(second)
    && (first == 0xE0 ==> second >= 0xA0) && (first == 0xED ==> second < 0xA0)
    && (first == 0xF0 ==> second >= 0x90) && (first == 0xF4 ==> second < 0x90)
  }

  function ByteAt(text: Bytes, i: nat): Byte {
    if i < |text| then text[i] else 0
  }

  /** How many bytes at the start fit one character: all it wants, or fewer. */
  function Fitting(text: Bytes): (k: nat)
    requires text != []
    ensures k <= |text| && k <= Wanted(text[0])
  {
    var wanted := Wanted(text[0]);
    if wanted <= 1 then wanted
    else if !SecondFits(text[0], ByteAt(text, 1)) then 1
    else if wanted == 2 || !Continuation(ByteAt(text, 2)) then 2
    else if wanted == 3 || !Continuation(ByteAt(text, 3)) then 3
    else 4
  }

  predicate StartsWhole(text: Bytes) {
    text != [] && Wanted(text[0]) > 0 && Fitting(text) == Wanted(text[0])
  }

  predicate Valid(text: Bytes) {
    text == [] || (StartsWhole(text) && Valid(text[Wanted(text[0])..]))
  }

  /** The bytes read as text: what fits only the start of a character is replaced as one. */
  function Lossy(text: Bytes): Bytes
    decreases |text|
  {
    if text == [] then []
    else if StartsWhole(text) then text[..Wanted(text[0])] + Lossy(text[Wanted(text[0])..])
    else
      var k := if Fitting(text) == 0 then 1 else Fitting(text);
      REPLACEMENT + Lossy(text[k..])
  }

  lemma WholeIsOwn(c: Bytes, rest: Bytes)
    requires StartsWhole(c) && |c| == Wanted(c[0])
    ensures StartsWhole(c + rest) && (c + rest)[0] == c[0]
  {
    var text := c + rest;
    assert forall i :: 0 <= i < |c| ==> text[i] == c[i];
    assert |c| > 1 ==> ByteAt(text, 1) == ByteAt(c, 1);
    assert |c| > 2 ==> ByteAt(text, 2) == ByteAt(c, 2);
    assert |c| > 3 ==> ByteAt(text, 3) == ByteAt(c, 3);
  }

  lemma WholePrefix(text: Bytes)
    requires StartsWhole(text)
    ensures var c := text[..Wanted(text[0])]; StartsWhole(c) && |c| == Wanted(c[0])
  {
    var c := text[..Wanted(text[0])];
    assert forall i :: 0 <= i < |c| ==> text[i] == c[i];
  }

  lemma ValidAppend(c: Bytes, rest: Bytes)
    requires StartsWhole(c) && |c| == Wanted(c[0]) && Valid(rest)
    ensures Valid(c + rest)
  {
    WholeIsOwn(c, rest);
    assert (c + rest)[|c|..] == rest;
  }

  lemma ReplacementIsWhole()
    ensures StartsWhole(REPLACEMENT) && |REPLACEMENT| == Wanted(REPLACEMENT[0])
  {
  }

  lemma {:induction false} LossyIsValid(text: Bytes)
    ensures Valid(Lossy(text))
    decreases |text|
  {
    hide StartsWhole, Valid;
    if text == [] {
      NothingIsValid();
    } else if StartsWhole(text) {
      var k := Wanted(text[0]);
      assert 0 < k <= |text| by { WholeFits(text); }
      LossyIsValid(text[k..]);
      WholePrefix(text);
      ValidAppend(text[..k], Lossy(text[k..]));
    } else {
      var k := if Fitting(text) == 0 then 1 else Fitting(text);
      LossyIsValid(text[k..]);
      ReplacementIsWhole();
      ValidAppend(REPLACEMENT, Lossy(text[k..]));
    }
  }

  lemma NothingIsValid()
    ensures Valid([])
  {
  }

  lemma WholeFits(text: Bytes)
    requires StartsWhole(text)
    ensures 0 < Wanted(text[0]) <= |text|
  {
  }

  /** Text is read as it is, and only text is: reading always gives text, and reading again changes nothing. */
  lemma LossyKeepsExactly(text: Bytes)
    ensures Lossy(text) == text <==> Valid(text)
    ensures Lossy(Lossy(text)) == Lossy(text)
  {
    LossyIsValid(text);
    ValidIsKept(text);
    ValidIsKept(Lossy(text));
  }

  lemma CutApart(text: Bytes, k: nat)
    requires k <= |text|
    ensures text[..k] + text[k..] == text
  {
  }

  lemma {:induction false} ValidIsKept(text: Bytes)
    ensures Valid(text) ==> Lossy(text) == text
    decreases |text|
  {
    hide StartsWhole;
    if text != [] && Valid(text) {
      var k := Wanted(text[0]);
      assert 0 < k <= |text| by { WholeFits(text); }
      ValidIsKept(text[k..]);
      CutApart(text, k);
    }
  }

  /** Text of one-byte characters. */
  lemma {:induction false} AsciiIsValid(text: Bytes)
    requires forall i :: 0 <= i < |text| ==> text[i] < 0x80
    ensures Valid(text)
  {
    if text != [] {
      AsciiIsValid(text[1..]);
    }
  }

  // ----- texts as sequences of characters -----

  /** The byte that carries the last six bits of a number. */
  function Tail(n: nat): (b: Byte)
    ensures Continuation(b) && n == n / 64 * 64 + (b - 0x80)
  {
    0x80 + n % 64
  }

  function EncodeChar(c: char): Bytes {
    var n: nat := c as int;
    var m: nat := n / 64;
    var k: nat := m / 64;
    if n < 0x80 then [n]
    else if n < 0x800 then [0xC0 + m, Tail(n)]
    else if n < 0x1_0000 then [0xE0 + k, Tail(m), Tail(n)]
    else [0xF0 + k / 64, Tail(k), Tail(m), Tail(n)]
  }

  /** The number of the character that whole bytes stand for. */
  function Scalar(text: Bytes): (n: int)
    requires StartsWhole(text)
  {
    var first: int := text[0];
    if first < 0x80 then first
    else if first < 0xE0 then (first - 0xC0) * 64 + (text[1] - 0x80)
    else if first < 0xF0 then ((first - 0xE0) * 64 + (text[1] - 0x80)) * 64 + (text[2] - 0x80)
    else (((first - 0xF0) * 64 + (text[1] - 0x80)) * 64 + (text[2] - 0x80)) * 64 + (text[3] - 0x80)
  }

  lemma CharRoundTrip(c: char)
    ensures StartsWhole(EncodeChar(c)) && |EncodeChar(c)| == Wanted(EncodeChar(c)[0])
    ensures Scalar(EncodeChar(c)) == c as int
  {
    hide Tail;
    var n := c as int;
    var m := n / 64;
    var k := m / 64;
    if n >= 0x80 {
      assert n == m * 64 + (Tail(n) - 0x80);
      if n >= 0x800 {
        assert m == k * 64 + (Tail(m) - 0x80);
        if n >= 0x1_0000 {
          assert k == k / 64 * 64 + (Tail(k) - 0x80);
        }
      }
    }
  }

  lemma TailOf(high: nat, b: Byte)
    requires Continuation(b)
    ensures var n := high * 64 + (b - 0x80); n / 64 == high && Tail(n) == b
  {
  }

  lemma TwoBytesRoundTrip(a: Byte, b: Byte)
    requires StartsWhole([a, b]) && Wanted(a) == 2
    ensures EncodeChar(Scalar([a, b]) as char) == [a, b]
  {
    hide Tail;
    var first: int := a;
    TailOf(first - 0xC0, b);
  }

  lemma ThreeBytesRoundTrip(a: Byte, b: Byte, c: Byte)
    requires StartsWhole([a, b, c]) && Wanted(a) == 3
    ensures 0 <= Scalar([a, b, c]) < 0xD800 || 0xE000 <= Scalar([a, b, c]) < 0x11_0000
    ensures EncodeChar(Scalar([a, b, c]) as char) == [a, b, c]
  {
    hide Tail;
    var first: int := a;
    var m := (first - 0xE0) * 64 + (b - 0x80);
    TailOf(first - 0xE0, b);
    TailOf(m, c);
  }

  lemma FourBytesRoundTrip(a: Byte, b: Byte, c: Byte, d: Byte)
    requires StartsWhole([a, b, c, d]) && Wanted(a) == 4
    ensures 0 <= Scalar([a, b, c, d]) < 0xD800 || 0xE000 <= Scalar([a, b, c, d]) < 0x11_0000
    ensures EncodeChar(Scalar([a, b, c, d]) as char) == [a, b, c, d]
  {
    hide Tail;
    var first: int := a;
    var k := (first - 0xF0) * 64 + (b - 0x80);
    var m := k * 64 + (c - 0x80);
    TailOf(first - 0xF0, b);
    TailOf(k, c);
    TailOf(m, d);
  }

  lemma ScalarRoundTrip(text: Bytes)
    requires StartsWhole(text) && |text| == Wanted(text[0])
    ensures 0 <= Scalar(text) < 0xD800 || 0xE000 <= Scalar(text) < 0x11_0000
    ensures EncodeChar(Scalar(text) as char) == text
  {
    if |text| == 2 {
      hide EncodeChar, Scalar, StartsWhole;
      assert text == [text[0], text[1]];
      TwoBytesRoundTrip(text[0], text[1]);
    } else if |text| == 3 {
      hide EncodeChar, Scalar, StartsWhole;
      assert text == [text[0], text[1], text[2]];
      ThreeBytesRoundTrip(text[0], text[1], text[2]);
    } else if |text| == 4 {
      hide EncodeChar, Scalar, StartsWhole;
      assert text == [text[0], text[1], text[2], text[3]];
      FourBytesRoundTrip(text[0], text[1], text[2], text[3]);
    }
  }

  function EncodeText(s: string): Bytes {
    if s == "" then [] else EncodeChar(s[0]) + EncodeText(s[1..])
  }

  function DecodeText(text: Bytes): string
    requires Valid(text)
    decreases |text|
  {
    if text == [] then ""
    else
      [Scalar(text) as char] + DecodeText(text[Wanted(text[0])..])
  }

  /** The characters that any bytes are read as. */
  function ReadText(bytes: Bytes): string {
    LossyIsValid(bytes);
    DecodeText(Lossy(bytes))
  }

  lemma {:induction false} EncodeTextValid(s: string)
    ensures Valid(EncodeText(s))
  {
    hide EncodeChar, StartsWhole, Wanted, Valid;
    if s == "" {
      NothingIsValid();
    } else {
      CharRoundTrip(s[0]);
      EncodeTextValid(s[1..]);
      ValidAppend(EncodeChar(s[0]), EncodeText(s[1..]));
    }
  }

  lemma ScalarOfFirst(c: Bytes, rest: Bytes)
    requires StartsWhole(c) && |c| == Wanted(c[0])
    ensures StartsWhole(c + rest) && (c + rest)[0] == c[0] && (c + rest)[|c|..] == rest && Scalar(c + rest) == Scalar(c)
  {
    WholeIsOwn(c, rest);
    assert forall i :: 0 <= i < |c| ==> (c + rest)[i] == c[i];
  }

  /** Every text of characters is read back from its bytes. */
  lemma {:induction false} DecodeEncodedText(s: string)
    ensures Valid(EncodeText(s)) && DecodeText(EncodeText(s)) == s
  {
    EncodeTextValid(s);
    if s != "" {
      hide EncodeChar, StartsWhole, Wanted, Scalar;
      CharRoundTrip(s[0]);
      ScalarOfFirst(EncodeChar(s[0]), EncodeText(s[1..]));
      DecodeEncodedText(s[1..]);
      assert s == [s[0]] + s[1..];
    }
  }

  /** All well-formed bytes are the bytes of the text they are read as. */
  lemma {:induction false} EncodeDecodedText(text: Bytes)
    requires Valid(text)
    ensures EncodeText(DecodeText(text)) == text
    decreases |text|
  {
    if text != [] {
      hide EncodeChar, StartsWhole, Scalar, Wanted;
      WholeFits(text);
      var k := Wanted(text[0]);
      WholePrefix(text);
      ScalarRoundTrip(text[..k]);
      CutApart(text, k);
      ScalarOfFirst(text[..k], text[k..]);
      EncodeDecodedText(text[k..]);
      var s := DecodeText(text);
      assert s[1..] == DecodeText(text[k..]);
    }
  }

  lemma ReadEncoded(s: string)
    ensures ReadText(EncodeText(s)) == s
  {
    DecodeEncodedText(s);
    LossyKeepsExactly(EncodeText(s));
  }

  lemma {:induction false} EncodeConcat(a: string, b: string)
    ensures EncodeText(a + b) == EncodeText(a) + EncodeText(b)
  {
    if a == "" {
      assert a + b == b;
    } else {
      assert (a + b)[1..] == a[1..] + b;
      EncodeConcat(a[1..], b);
    }
  }

  // ----- one-byte characters -----

  predicate IsAscii(bytes: Bytes) {
    forall i :: 0 <= i < |bytes| ==> bytes[i] < 0x80
  }

  function AsciiText(bytes: Bytes): (s: string)
    requires IsAscii(bytes)
    ensures |s| == |bytes| && forall i :: 0 <= i < |s| ==> s[i] as int == bytes[i]
  {
    seq(|bytes|, i requires 0 <= i < |bytes| => bytes[i] as char)
  }

  lemma {:induction false} EncodeAscii(s: string, bytes: Bytes)
    requires |s| == |bytes| && IsAscii(bytes) && forall i :: 0 <= i < |s| ==> s[i] as int == bytes[i]
    ensures EncodeText(s) == bytes
  {
    if s != "" {
      EncodeAscii(s[1..], bytes[1..]);
      assert bytes == [bytes[0]] + bytes[1..];
    }
  }

  // ----- what is replaced -----

  /** Behind well-formed text, reading goes on as if it started there. */
  lemma {:induction false} LossyAfterText(text: Bytes, rest: Bytes)
    requires Valid(text)
    ensures Lossy(text + rest) == text + Lossy(rest)
    decreases |text|
  {
    if text == [] {
      assert text + rest == rest;
    } else {
      hide StartsWhole, Wanted;
      WholeFits(text);
      var k := Wanted(text[0]);
      WholePrefix(text);
      CutBefore(text, k, rest);
      CutBefore(text, k, Lossy(rest));
      WholeIsOwn(text[..k], text[k..] + rest);
      LossyAfterText(text[k..], rest);
    }
  }

  lemma CutBefore(text: Bytes, k: nat, rest: Bytes)
    requires k <= |text|
    ensures text[..k] + (text[k..] + rest) == text + rest
    ensures (text + rest)[..k] == text[..k] && (text + rest)[k..] == text[k..] + rest
  {
  }

  /** A character that breaks off, and what cannot start one, are each replaced as one. */
  lemma BrokenCharacterIsReplaced(text: Bytes, k: nat, rest: Bytes)
    requires StartsWhole(text) && 0 < k < Wanted(text[0]) && (rest == [] || !Continuation(rest[0]))
    ensures Lossy(text[..k] + rest) == [0xEF, 0xBF, 0xBD] + Lossy(rest)
  {
    var broken := text[..k] + rest;
    assert forall i :: 0 <= i < k ==> broken[i] == text[i];
    assert ByteAt(broken, k) == if rest == [] then 0 else rest[0];
    assert broken[k..] == rest;
  }

  lemma StrayByteIsReplaced(b: Byte, rest: Bytes)
    requires Continuation(b) || b == 0xC0 || b == 0xC1 || b >= 0xF5
    ensures Lossy([b] + rest) == [0xEF, 0xBF, 0xBD] + Lossy(rest)
  {
    assert ([b] + rest)[1..] == rest;
  }

  /** The bytes of the letter é, the euro sign and a musical clef. */
  lemma SomeCharacters()
    ensures EncodeChar('A') == [0x41] && EncodeChar('\U{E9}') == [0xC3, 0xA9]
    ensures EncodeChar('\U{20AC}') == [0xE2, 0x82, 0xAC] && EncodeChar('\U{1D11E}') == [0xF0, 0x9D, 0x84, 0x9E]
  {
  }
}
