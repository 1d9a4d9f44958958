/**
 Looking up a parameter of a request path, and the list targets whose parameters
 are looked up again when a link is followed.
 */
module QueryParams {
  import opened Json
  import opened Utf8
  import opened QueryText

  // ----- cutting texts -----

  /** The parts before and after the first occurrence of a byte. */
  function SplitOnce(text: Bytes, at: Byte): (r: Option<(Bytes, Bytes)>)
    decreases |text|
  {
    if text == [] then None
    else if text[0] == at then Some(([], text[1..]))
    else
      var rest := SplitOnce(text[1..], at);
      if rest.None? then None else Some(([text[0]] + rest.value.0, rest.value.1))
  }

  lemma {:induction false} SplitOnceAt(head: Bytes, at: Byte, tail: Bytes)
    requires at !in head
    ensures SplitOnce(head + [at] + tail, at) == Some((head, tail))
  {
    var text := head + [at] + tail;
    if head == [] {
      assert text[1..] == tail;
    } else {
      assert text[1..] == head[1..] + [at] + tail;
      SplitOnceAt(head[1..], at, tail);
      assert head == [head[0]] + head[1..];
    }
  }

  /** The parts between all occurrences of a byte; an empty text is one empty part. */
  function SplitAll(text: Bytes, at: Byte): (parts: seq<Bytes>)
    ensures |parts| >= 1
    decreases |text|
  {
    if text == [] then [[]]
    else
      var rest := SplitAll(text[1..], at);
      if text[0] == at then [[]] + rest else [[text[0]] + rest[0]] + rest[1..]
  }

  lemma {:induction false} SplitAllLast(text: Bytes, at: Byte)
    requires at !in text
    ensures SplitAll(text, at) == [text]
  {
    if text != [] {
      assert text == [text[0]] + text[1..];
      SplitAllLast(text[1..], at);
    }
  }

  lemma {:induction false} SplitAllFirst(head: Bytes, at: Byte, tail: Bytes)
    requires at !in head
    ensures SplitAll(head + [at] + tail, at) == [head] + SplitAll(tail, at)
  {
    var text := head + [at] + tail;
    if head == [] {
      assert text[1..] == tail;
    } else {
      assert text[1..] == head[1..] + [at] + tail;
      SplitAllFirst(head[1..], at, tail);
      assert head == [head[0]] + head[1..];
    }
  }

  // ----- looking a parameter up -----

  /** A lookup finds a value, finds none, or stops at a text that cannot be decoded. */
  datatype Found = Value(text: Bytes) | Absent | Stopped

  function KeyAndValue(part: Bytes): (Bytes, Bytes) {
    var cut := SplitOnce(part, EQUALS);
    if cut.Some? then cut.value else (part, [])
  }

  function InParts(parts: seq<Bytes>, name: Bytes): Found {
    if parts == [] then Absent
    else
      var (key, value) := KeyAndValue(parts[0]);
      if DecodedText(key).None? then Stopped
      else if DecodedText(key).value != name then InParts(parts[1..], name)
      else if DecodedText(value).None? then Stopped
      else Value(DecodedText(value).value)
  }

  /** The parts of what follows the first question mark. */
  function QueryParts(path: Bytes): seq<Bytes> {
    var cut := SplitOnce(path, QUESTION);
    if cut.None? then [] else SplitAll(cut.value.1, AMPERSAND)
  }

  /** The first parameter of that name, decoded. */
  function Param(path: Bytes, name: Bytes): Found {
    InParts(QueryParts(path), name)
  }

  /** Whatever a lookup finds is text. */
  lemma {:induction false} FoundInPartsIsText(parts: seq<Bytes>, name: Bytes)
    ensures InParts(parts, name).Value? ==> Valid(InParts(parts, name).text)
  {
    hide Decoded, KeyAndValue, Lossy, Valid;
    if parts != [] {
      var (key, value) := KeyAndValue(parts[0]);
      if Decoded(value).Some? {
        LossyIsValid(Decoded(value).value);
      }
      FoundInPartsIsText(parts[1..], name);
    }
  }

  lemma FoundIsText(path: Bytes, name: Bytes)
    ensures Param(path, name).Value? ==> Valid(Param(path, name).text)
  {
    FoundInPartsIsText(QueryParts(path), name);
  }

  method QueryParam(path: Bytes, name: Bytes) returns (r: Found)
    ensures r == Param(path, name)
  {
    var cut := SplitOnce(path, QUESTION);
    if cut.None? {
      return Absent;
    }
    var parts := SplitAll(cut.value.1, AMPERSAND);
    assert parts[0..] == parts;
    for i := 0 to |parts|
      invariant InParts(parts[i..], name) == Param(path, name)
    {
      assert parts[i..][1..] == parts[i + 1..];
      var (key, value) := KeyAndValue(parts[i]);
      var decoded := Decode(key);
      if decoded.None? {
        return Stopped;
      }
      if decoded.value == name {
        var text := Decode(value);
        return if text.Some? then Value(text.value) else Stopped;
      }
    }
    r := Absent;
  }

  // ----- when a lookup stops -----

  ghost predicate HasBadCut(text: Bytes) {
    exists i: nat :: BadCutAt(text, i)
  }

  /** The keys before the k-th can be decoded and are other names. */
  ghost predicate PassesTo(parts: seq<Bytes>, k: nat, name: Bytes) {
    k < |parts| && forall j :: 0 <= j < k ==>
      !HasBadCut(KeyAndValue(parts[j]).0) && DecodedText(KeyAndValue(parts[j]).0) != Some(name)
  }

  /** The lookup gets to the k-th part and cannot decode its key or, the key being the name, its value. */
  ghost predicate StopsAt(parts: seq<Bytes>, k: nat, name: Bytes) {
    && PassesTo(parts, k, name)
    && var (key, value) := KeyAndValue(parts[k]);
       HasBadCut(key) || (DecodedText(key) == Some(name) && HasBadCut(value))
  }

  /** The lookup gets to the k-th part and finds the value there. */
  ghost predicate FindsAt(parts: seq<Bytes>, k: nat, name: Bytes, text: Bytes) {
    && PassesTo(parts, k, name)
    && DecodedText(KeyAndValue(parts[k]).0) == Some(name) && DecodedText(KeyAndValue(parts[k]).1) == Some(text)
  }

  lemma PassFirst(parts: seq<Bytes>, k: nat, name: Bytes)
    requires parts != [] && !HasBadCut(KeyAndValue(parts[0]).0) && DecodedText(KeyAndValue(parts[0]).0) != Some(name)
    ensures PassesTo(parts, k + 1, name) <==> PassesTo(parts[1..], k, name)
    ensures PassesTo(parts[1..], k, name) ==> k + 1 < |parts| && parts[1..][k] == parts[k + 1]
  {
    hide KeyAndValue, HasBadCut, DecodedText;
    assert forall j :: 0 <= j < |parts| - 1 ==> parts[1..][j] == parts[j + 1];
    if PassesTo(parts, k + 1, name) {
      forall j | 0 <= j < k
        ensures !HasBadCut(KeyAndValue(parts[1..][j]).0) && DecodedText(KeyAndValue(parts[1..][j]).0) != Some(name)
      {
        assert parts[1..][j] == parts[j + 1];
      }
    }
    if PassesTo(parts[1..], k, name) {
      forall j | 0 <= j < k + 1
        ensures !HasBadCut(KeyAndValue(parts[j]).0) && DecodedText(KeyAndValue(parts[j]).0) != Some(name)
      {
        if j > 0 {
          assert parts[1..][j - 1] == parts[j];
        }
      }
    }
  }

  /** A first part that is not passed is the only one that can be reached. */
  lemma OnlyFirst(parts: seq<Bytes>, k: nat, name: Bytes)
    requires parts != [] && (HasBadCut(KeyAndValue(parts[0]).0) || DecodedText(KeyAndValue(parts[0]).0) == Some(name))
    ensures PassesTo(parts, k, name) <==> k == 0
  {
  }

  lemma NothingReached(name: Bytes, k: nat)
    ensures !PassesTo([], k, name)
  {
  }

  lemma {:induction false} PartsStopExactly(parts: seq<Bytes>, name: Bytes)
    ensures InParts(parts, name) == Stopped <==> exists k: nat :: StopsAt(parts, k, name)
    decreases |parts|
  {
    hide KeyAndValue, DecodedText, PassesTo, HasBadCut;
    if parts != [] {
      var (key, value) := KeyAndValue(parts[0]);
      BadCutStops(key);
      BadCutStops(value);
      if DecodedText(key).Some? && DecodedText(key).value != name {
        PartsStopExactly(parts[1..], name);
        forall k: nat
          ensures StopsAt(parts, k + 1, name) <==> StopsAt(parts[1..], k, name)
        {
          PassFirst(parts, k, name);
        }
        if k: nat :| StopsAt(parts, k, name) {
          assert k > 0;
          assert StopsAt(parts[1..], k - 1, name);
        }
      } else {
        forall k: nat
          ensures PassesTo(parts, k, name) <==> k == 0
        {
          OnlyFirst(parts, k, name);
        }
        assert StopsAt(parts, 0, name) <==> InParts(parts, name) == Stopped;
      }
    } else {
      forall k: nat {
        NothingReached(name, k);
      }
    }
  }

  lemma {:induction false} PartsFindExactly(parts: seq<Bytes>, name: Bytes, text: Bytes)
    ensures InParts(parts, name) == Value(text) <==> exists k: nat :: FindsAt(parts, k, name, text)
    decreases |parts|
  {
    hide KeyAndValue, DecodedText, PassesTo, HasBadCut;
    if parts != [] {
      var (key, value) := KeyAndValue(parts[0]);
      BadCutStops(key);
      if DecodedText(key).Some? && DecodedText(key).value != name {
        PartsFindExactly(parts[1..], name, text);
        forall k: nat
          ensures FindsAt(parts, k + 1, name, text) <==> FindsAt(parts[1..], k, name, text)
        {
          PassFirst(parts, k, name);
        }
        if k: nat :| FindsAt(parts, k, name, text) {
          assert k > 0;
          assert FindsAt(parts[1..], k - 1, name, text);
        }
      } else {
        forall k: nat
          ensures PassesTo(parts, k, name) <==> k == 0
        {
          OnlyFirst(parts, k, name);
        }
        assert FindsAt(parts, 0, name, text) <==> InParts(parts, name) == Value(text);
      }
    } else {
      forall k: nat {
        NothingReached(name, k);
      }
    }
  }

  lemma BadCutStops(text: Bytes)
    ensures HasBadCut(text) <==> DecodedText(text).None?
  {
    DecodeFailsExactly(text);
  }

  /**
   A lookup stops exactly when the query has a part up to which all keys can be
   decoded and are other names, and whose own key, or the value of the key looked
   for, has a cut inside a character. It finds a text exactly when the first key
   of that name is reached and its value decodes to the text.
   */
  lemma ParamStopsExactly(path: Bytes, name: Bytes, text: Bytes)
    ensures Param(path, name) == Stopped <==> exists k: nat :: StopsAt(QueryParts(path), k, name)
    ensures Param(path, name) == Value(text) <==> exists k: nat :: FindsAt(QueryParts(path), k, name, text)
  {
    PartsStopExactly(QueryParts(path), name);
    PartsFindExactly(QueryParts(path), name, text);
  }

  // ----- building a query -----

  /** A parameter with the value it stands for. */
  datatype Pair = Pair(name: Bytes, value: Bytes)

  /** A name made of characters that are not encoded. */
  predicate PlainName(name: Bytes) {
    forall i :: 0 <= i < |name| ==> Unreserved(name[i])
  }

  function PairText(p: Pair): Bytes {
    p.name + [EQUALS] + Encoded(p.value)
  }

  function QueryOf(pairs: seq<Pair>): Bytes
    requires pairs != []
  {
    if |pairs| == 1 then PairText(pairs[0]) else PairText(pairs[0]) + [AMPERSAND] + QueryOf(pairs[1..])
  }

  function Texts(pairs: seq<Pair>): (texts: seq<Bytes>)
    ensures |texts| == |pairs|
    ensures forall i :: 0 <= i < |pairs| ==> texts[i] == PairText(pairs[i])
  {
    seq(|pairs|, i requires 0 <= i < |pairs| => PairText(pairs[i]))
  }

  /** The value of the first pair with this name. */
  function FirstOf(pairs: seq<Pair>, name: Bytes): Found {
    if pairs == [] then Absent
    else if pairs[0].name == name then Value(pairs[0].value)
    else FirstOf(pairs[1..], name)
  }

  /** The values are texts. */
  ghost predicate TextValues(pairs: seq<Pair>) {
    forall i :: 0 <= i < |pairs| ==> Valid(pairs[i].value)
  }

  ghost predicate PlainNames(pairs: seq<Pair>) {
    forall i :: 0 <= i < |pairs| ==> PlainName(pairs[i].name)
  }

  lemma PairTextParts(p: Pair)
    requires PlainName(p.name)
    ensures AMPERSAND !in PairText(p)
    ensures KeyAndValue(PairText(p)) == (p.name, Encoded(p.value))
  {
    EncodedIsSafe(p.value);
    SplitOnceAt(p.name, EQUALS, Encoded(p.value));
  }

  lemma TextsOfFirst(pairs: seq<Pair>)
    requires pairs != []
    ensures Texts(pairs) == [PairText(pairs[0])] + Texts(pairs[1..])
  {
    hide PairText;
  }

  lemma {:induction false} QuerySplits(pairs: seq<Pair>)
    requires pairs != [] && PlainNames(pairs)
    ensures SplitAll(QueryOf(pairs), AMPERSAND) == Texts(pairs)
  {
    hide PairText, SplitAll, KeyAndValue, PlainName;
    PairTextParts(pairs[0]);
    if |pairs| == 1 {
      SplitAllLast(PairText(pairs[0]), AMPERSAND);
    } else {
      SplitAllFirst(PairText(pairs[0]), AMPERSAND, QueryOf(pairs[1..]));
      QuerySplits(pairs[1..]);
      TextsOfFirst(pairs);
    }
  }

  lemma PlainNameDecodes(name: Bytes)
    requires PlainName(name)
    ensures DecodedText(name) == Some(name)
  {
    PlainIsOwnEncoding(name);
    AsciiIsValid(name);
    DecodeTextEncoded(name);
  }

  lemma {:induction false} PartsFind(pairs: seq<Pair>, name: Bytes)
    requires PlainNames(pairs) && TextValues(pairs)
    ensures InParts(Texts(pairs), name) == FirstOf(pairs, name)
  {
    if pairs != [] {
      PairTextParts(pairs[0]);
      PlainNameDecodes(pairs[0].name);
      DecodeTextEncoded(pairs[0].value);
      PartsFind(pairs[1..], name);
      assert Texts(pairs)[1..] == Texts(pairs[1..]);
    }
  }

  /** Looking any name up behind any path gives back exactly the values the query was built from. */
  lemma BuiltQueryIsReadBack(path: Bytes, pairs: seq<Pair>, name: Bytes)
    requires QUESTION !in path && pairs != [] && PlainNames(pairs) && TextValues(pairs)
    ensures Param(path + [QUESTION] + QueryOf(pairs), name) == FirstOf(pairs, name)
  {
    SplitOnceAt(path, QUESTION, QueryOf(pairs));
    QuerySplits(pairs);
    PartsFind(pairs, name);
  }

  // ----- numbers -----

  const USIZE_MAX: nat := 0xFFFF_FFFF_FFFF_FFFF

  function Digits(n: nat): (r: Bytes)
    ensures r != []
  {
    if n < 10 then [0x30 + n] else Digits(n / 10) + [0x30 + n % 10]
  }

  /** The number written by decimal digits alone. */
  function DigitsValue(text: Bytes): Option<nat> {
    if text == [] then Some(0)
    else
      var before, last := DigitsValue(text[..|text| - 1]), text[|text| - 1];
      if before.None? || !IsDigit(last) then None else Some(10 * before.value + (last - 0x30))
  }

  /** A machine number: digits with an optional plus sign, not too large. */
  function ParseNumber(text: Bytes): Option<nat> {
    var digits := if text != [] && text[0] == PLUS then text[1..] else text;
    if digits == [] then None
    else
      var n := DigitsValue(digits);
      if n.Some? && n.value <= USIZE_MAX then n else None
  }

  lemma {:induction false} DigitsReadBack(n: nat)
    ensures DigitsValue(Digits(n)) == Some(n)
    ensures forall i :: 0 <= i < |Digits(n)| ==> IsDigit(Digits(n)[i])
  {
    if n >= 10 {
      DigitsReadBack(n / 10);
      assert Digits(n)[..|Digits(n)| - 1] == Digits(n / 10);
    } else {
      assert Digits(n)[..0] == [];
    }
  }

  lemma NumberReadBack(n: nat)
    requires n <= USIZE_MAX
    ensures ParseNumber(Digits(n)) == Some(n)
  {
    DigitsReadBack(n);
  }

  lemma {:induction false} PlainIsOwnEncoding(text: Bytes)
    requires PlainName(text)
    ensures Encoded(text) == text
  {
    if text != [] {
      PlainIsOwnEncoding(text[1..]);
      assert text == [text[0]] + text[1..];
    }
  }

  // ----- list targets -----

  const RECORDS: Bytes := [0x72, 0x65, 0x63, 0x6F, 0x72, 0x64, 0x73, 0x2F] // records/
  const PAGE: Bytes := [0x70, 0x61, 0x67, 0x65] // page
  const Q: Bytes := [0x71] // q
  const SEARCH: Bytes := [0x73, 0x65, 0x61, 0x72, 0x63, 0x68] // search
  const PARENT_RECORD: Bytes :=
    [0x70, 0x61, 0x72, 0x65, 0x6E, 0x74, 0x5F, 0x72, 0x65, 0x63, 0x6F, 0x72, 0x64] // parent_record
  const PARENT_ID: Bytes := [0x70, 0x61, 0x72, 0x65, 0x6E, 0x74, 0x5F, 0x69, 0x64] // parent_id

  datatype Parent = Parent(record: Bytes, id: Bytes)

  /** What a target is made from are texts. */
  predicate AreTexts(search: Bytes, parent: Option<Parent>) {
    Valid(search) && (parent.Some? ==> Valid(parent.value.record) && Valid(parent.value.id))
  }

  /** The target of a list page, put together piece by piece. */
  function ListTarget(record: Bytes, page: nat, search: Bytes, parent: Option<Parent>): Bytes {
    RECORDS + record + [QUESTION] + PAGE + [EQUALS] + Digits(page)
    + (if search == [] then [] else [AMPERSAND] + Q + [EQUALS] + Encoded(search))
    + (if parent.None? then []
       else [AMPERSAND] + PARENT_RECORD + [EQUALS] + Encoded(parent.value.record)
            + ([AMPERSAND] + PARENT_ID + [EQUALS] + Encoded(parent.value.id)))
  }

  function SearchPairs(search: Bytes): seq<Pair> {
    if search == [] then [] else [Pair(Q, search)]
  }

  function ParentPairs(parent: Option<Parent>): seq<Pair> {
    if parent.None? then [] else [Pair(PARENT_RECORD, parent.value.record), Pair(PARENT_ID, parent.value.id)]
  }

  function TargetPairs(page: nat, search: Bytes, parent: Option<Parent>): (pairs: seq<Pair>)
    ensures pairs != []
  {
    [Pair(PAGE, Digits(page))] + SearchPairs(search) + ParentPairs(parent)
  }

  /** The text that a list of further pairs adds to a query. */
  function MoreText(pairs: seq<Pair>): Bytes {
    if pairs == [] then [] else [AMPERSAND] + PairText(pairs[0]) + MoreText(pairs[1..])
  }

  lemma {:induction false} QueryGrows(first: Pair, more: seq<Pair>)
    ensures QueryOf([first] + more) == PairText(first) + MoreText(more)
    decreases |more|
  {
    var pairs := [first] + more;
    if more == [] {
      assert pairs == [first];
      assert PairText(first) + [] == PairText(first);
    } else {
      assert pairs[1..] == more;
      assert more == [more[0]] + more[1..];
      QueryGrows(more[0], more[1..]);
    }
  }

  lemma {:induction false} MoreTextConcat(a: seq<Pair>, b: seq<Pair>)
    ensures MoreText(a + b) == MoreText(a) + MoreText(b)
  {
    if a == [] {
      assert a + b == b;
    } else {
      assert (a + b)[1..] == a[1..] + b;
      MoreTextConcat(a[1..], b);
    }
  }

  lemma SearchText(search: Bytes)
    ensures MoreText(SearchPairs(search)) == if search == [] then [] else [AMPERSAND] + Q + [EQUALS] + Encoded(search)
  {
    if search != [] {
      var p := Pair(Q, search);
      assert [p][1..] == [];
      assert [AMPERSAND] + (Q + [EQUALS] + Encoded(search)) + [] == [AMPERSAND] + Q + [EQUALS] + Encoded(search);
    }
  }

  lemma ParentText(parent: Option<Parent>)
    ensures MoreText(ParentPairs(parent)) ==
            if parent.None? then []
            else [AMPERSAND] + PARENT_RECORD + [EQUALS] + Encoded(parent.value.record)
                 + ([AMPERSAND] + PARENT_ID + [EQUALS] + Encoded(parent.value.id))
  {
    if parent.Some? {
      var a, b := Pair(PARENT_RECORD, parent.value.record), Pair(PARENT_ID, parent.value.id);
      assert [a, b][1..] == [b] && [b][1..] == [];
      assert MoreText([b]) == [AMPERSAND] + PairText(b) + MoreText([]);
      assert [AMPERSAND] + PairText(b) + [] == [AMPERSAND] + PARENT_ID + [EQUALS] + Encoded(b.value);
      assert [AMPERSAND] + PairText(a) == [AMPERSAND] + PARENT_RECORD + [EQUALS] + Encoded(a.value);
    }
  }

  /** The pieces of a target are the text of its pairs. */
  lemma TargetIsQuery(record: Bytes, page: nat, search: Bytes, parent: Option<Parent>)
    ensures ListTarget(record, page, search, parent) ==
            RECORDS + record + [QUESTION] + QueryOf(TargetPairs(page, search, parent))
  {
    hide Digits, Encoded, MoreText;
    var first := Pair(PAGE, Digits(page));
    var more := SearchPairs(search) + ParentPairs(parent);
    DigitsReadBack(page);
    PlainIsOwnEncoding(Digits(page));
    assert TargetPairs(page, search, parent) == [first] + more;
    QueryGrows(first, more);
    MoreTextConcat(SearchPairs(search), ParentPairs(parent));
    SearchText(search);
    ParentText(parent);
    Regroup(RECORDS + record + [QUESTION], PAGE, [EQUALS], Digits(page),
            MoreText(SearchPairs(search)), MoreText(ParentPairs(parent)));
  }

  lemma Regroup<T>(a: seq<T>, b: seq<T>, c: seq<T>, d: seq<T>, e: seq<T>, f: seq<T>)
    ensures a + b + c + d + e + f == a + (b + c + d + (e + f))
  {
  }

  /**
   Every parameter of a list target reads back as it was given: the page number,
   the search unless it is empty, and the parent's record and id; no other name is found.
   */
  lemma TargetReadsBack(prefix: Bytes, record: Bytes, page: nat, search: Bytes, parent: Option<Parent>, name: Bytes)
    requires QUESTION !in prefix && QUESTION !in record && AreTexts(search, parent)
    ensures var path := prefix + ListTarget(record, page, search, parent);
            && Param(path, PAGE) == Value(Digits(page))
            && Param(path, Q) == (if search == [] then Absent else Value(search))
            && Param(path, PARENT_RECORD) == (if parent.None? then Absent else Value(parent.value.record))
            && Param(path, PARENT_ID) == (if parent.None? then Absent else Value(parent.value.id))
            && (name !in {PAGE, Q, PARENT_RECORD, PARENT_ID} ==> Param(path, name) == Absent)
  {
    hide ListTarget, Param, Digits, Valid;
    TargetLookup(prefix, record, page, search, parent, PAGE);
    TargetLookup(prefix, record, page, search, parent, Q);
    TargetLookup(prefix, record, page, search, parent, PARENT_RECORD);
    TargetLookup(prefix, record, page, search, parent, PARENT_ID);
    TargetLookup(prefix, record, page, search, parent, name);
    assert |PAGE| == 4 && |Q| == 1 && |PARENT_RECORD| == 13 && |PARENT_ID| == 9;
  }

  lemma TargetLookup(prefix: Bytes, record: Bytes, page: nat, search: Bytes, parent: Option<Parent>, name: Bytes)
    requires QUESTION !in prefix && QUESTION !in record && AreTexts(search, parent)
    ensures Param(prefix + ListTarget(record, page, search, parent), name) ==
            if name == PAGE then Value(Digits(page))
            else if name == Q && search != [] then Value(search)
            else if name == PARENT_RECORD && parent.Some? then Value(parent.value.record)
            else if name == PARENT_ID && parent.Some? then Value(parent.value.id)
            else Absent
  {
    hide ListTarget, Param, TargetPairs, QueryOf, FirstOf, PlainNames, TextValues, Valid;
    var pairs := TargetPairs(page, search, parent);
    var before := prefix + (RECORDS + record);
    TargetIsQuery(record, page, search, parent);
    assert prefix + ListTarget(record, page, search, parent) == before + [QUESTION] + QueryOf(pairs);
    NamesArePlain(page, search, parent);
    ValuesAreTexts(page, search, parent);
    BuiltQueryIsReadBack(before, pairs, name);
    FindInTarget(page, search, parent, name);
  }

  lemma ValuesAreTexts(page: nat, search: Bytes, parent: Option<Parent>)
    requires AreTexts(search, parent)
    ensures TextValues(TargetPairs(page, search, parent))
  {
    hide Valid;
    DigitsReadBack(page);
    AsciiIsValid(Digits(page));
  }

  lemma NamesArePlain(page: nat, search: Bytes, parent: Option<Parent>)
    ensures PlainNames(TargetPairs(page, search, parent))
  {
    assert PlainName(PAGE) && PlainName(Q) && PlainName(PARENT_RECORD) && PlainName(PARENT_ID);
  }

  lemma {:induction false} FirstOfConcat(a: seq<Pair>, b: seq<Pair>, name: Bytes)
    ensures FirstOf(a + b, name) == if FirstOf(a, name) == Absent then FirstOf(b, name) else FirstOf(a, name)
  {
    if a == [] {
      assert a + b == b;
    } else {
      assert (a + b)[1..] == a[1..] + b;
      FirstOfConcat(a[1..], b, name);
    }
  }

  lemma FindInTarget(page: nat, search: Bytes, parent: Option<Parent>, name: Bytes)
    ensures FirstOf(TargetPairs(page, search, parent), name) ==
            if name == PAGE then Value(Digits(page))
            else if name == Q && search != [] then Value(search)
            else if name == PARENT_RECORD && parent.Some? then Value(parent.value.record)
            else if name == PARENT_ID && parent.Some? then Value(parent.value.id)
            else Absent
  {
    var first := [Pair(PAGE, Digits(page))];
    FirstOfConcat(first + SearchPairs(search), ParentPairs(parent), name);
    FirstOfConcat(first, SearchPairs(search), name);
    assert |PAGE| == 4 && |Q| == 1 && |PARENT_RECORD| == 13 && |PARENT_ID| == 9;
    assert first[1..] == [];
    if search != [] {
      assert SearchPairs(search)[1..] == [];
    }
    if parent.Some? {
      var b := Pair(PARENT_ID, parent.value.id);
      assert ParentPairs(parent)[1..] == [b] && [b][1..] == [];
    }
  }

  // ----- details of the readings -----

  /** A part without an equals sign is a key with an empty value. */
  lemma {:induction false} NoEqualsNoValue(part: Bytes)
    requires EQUALS !in part
    ensures SplitOnce(part, EQUALS) == None && KeyAndValue(part) == (part, [])
  {
    if part != [] {
      NoEqualsNoValue(part[1..]);
    }
  }

  /** A path without a question mark has no parameters. */
  lemma {:induction false} NoQuestionNoQuery(path: Bytes, name: Bytes)
    requires 0x3F !in path
    ensures SplitOnce(path, 0x3F) == None && Param(path, name) == Absent
  {
    if path != [] {
      NoQuestionNoQuery(path[1..], name);
    }
  }

  ghost predicate AllDigits(text: Bytes) {
    forall i :: 0 <= i < |text| ==> 0x30 <= text[i] <= 0x39
  }

  lemma {:induction false} DigitsValueExactly(text: Bytes)
    ensures DigitsValue(text).Some? <==> AllDigits(text)
  {
    if text != [] {
      var n := |text| - 1;
      DigitsValueExactly(text[..n]);
      assert AllDigits(text) <==> AllDigits(text[..n]) && 0x30 <= text[n] <= 0x39;
    }
  }

  /** Numbers are decimal digits, one at least, with or without a plus sign, up to the largest machine number. */
  lemma NumberExactly(text: Bytes, n: nat)
    ensures ParseNumber([]) == None && ParseNumber([0x2B]) == None
    ensures ParseNumber(text).Some? ==> ParseNumber(text).value <= 0xFFFF_FFFF_FFFF_FFFF
    ensures text != [] && !AllDigits(text) && text[0] != 0x2B ==> ParseNumber(text) == None
    ensures ParseNumber(Digits(n)) == ParseNumber([0x2B] + Digits(n)) == if n <= 0xFFFF_FFFF_FFFF_FFFF then Some(n) else None
  {
    DigitsValueExactly(text);
    DigitsReadBack(n);
    assert ([0x2B] + Digits(n))[1..] == Digits(n);
    assert [PLUS][1..] == [];
  }

  lemma ParameterNames()
    ensures EncodeText("page") == PAGE && EncodeText("q") == Q && EncodeText("search") == SEARCH
  {
    hide EncodeText;
    EncodeAscii("page", PAGE);
    EncodeAscii("q", Q);
    EncodeAscii("search", SEARCH);
  }
}
