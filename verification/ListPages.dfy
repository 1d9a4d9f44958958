/**
 Reading a list request, showing one page of the list, and following the links
 from page to page.
 */
module ListPages {
  import opened Json
  import opened Sequences
  import opened Utf8
  import opened QueryText
  import opened QueryParams
  import opened Records
  import opened RecordList

  const PAGE_SIZE: nat := 10

  const PARENT_RECORD_ALIAS: Bytes :=
    [0x70, 0x61, 0x72, 0x65, 0x6E, 0x74, 0x52, 0x65, 0x63, 0x6F, 0x72, 0x64] // parentRecord
  const PARENT_ID_ALIAS: Bytes := [0x70, 0x61, 0x72, 0x65, 0x6E, 0x74, 0x49, 0x64] // parentId

  // ----- one page -----

  function Min(a: nat, b: nat): nat {
    if a <= b then a else b
  }

  /** Machine multiplication that stops at the largest number. */
  function SaturatingMul(a: nat, b: nat): nat {
    Min(a * b, USIZE_MAX)
  }

  function PageStart(page: nat, total: nat): (start: nat)
    requires page >= 1
    ensures start <= total
  {
    Min(SaturatingMul(page - 1, PAGE_SIZE), total)
  }

  function PageEnd(page: nat, total: nat): (end: nat)
    requires page >= 1
    ensures PageStart(page, total) <= end <= total
  {
    Min(PageStart(page, total) + PAGE_SIZE, total)
  }

  function PageRows(list: seq<Row>, page: nat): seq<Row>
    requires page >= 1
  {
    list[PageStart(page, |list|)..PageEnd(page, |list|)]
  }

  predicate HasNext(page: nat, total: nat)
    requires page >= 1
  {
    PageEnd(page, total) < total
  }

  /** A page that has a next one is full, and the next one starts where it ends. */
  lemma NextPageContinues(page: nat, total: nat)
    requires page >= 1 && total <= USIZE_MAX && HasNext(page, total)
    ensures PageStart(page + 1, total) == PageEnd(page, total) == PageStart(page, total) + PAGE_SIZE
    ensures page + 1 <= USIZE_MAX
  {
    assert page * PAGE_SIZE == (page - 1) * PAGE_SIZE + PAGE_SIZE;
  }

  // ----- requests -----

  /** What a request path asks for. */
  datatype Request = Request(page: nat, search: Bytes, parent: Option<Parent>)

  function OrElse(a: Found, b: Found): Found {
    if a == Absent then b else a
  }

  /** The request read from a path; nothing when some parameter cannot be decoded. */
  function ReadRequest(path: Bytes, trim: Bytes -> Bytes): (r: Option<Request>)
    ensures r.Some? ==> r.value.page >= 1
  {
    var record := OrElse(Param(path, PARENT_RECORD), Param(path, PARENT_RECORD_ALIAS));
    var id := OrElse(Param(path, PARENT_ID), Param(path, PARENT_ID_ALIAS));
    var search := OrElse(Param(path, Q), Param(path, SEARCH));
    var page := Param(path, PAGE);
    if record.Stopped? || id.Stopped? || search.Stopped? || page.Stopped? then None
    else
      var number := if page.Value? then ParseNumber(page.text) else None;
      Some(Request(
             if number.Some? && number.value >= 1 then number.value else 1,
             trim(if search.Value? then search.text else []),
             if record.Value? && id.Value? then Some(Parent(record.text, id.text)) else None))
  }

  /** A target put behind a path is read as exactly the page, search and parent it was made from. */
  lemma TargetIsRequest(prefix: Bytes, record: Bytes, request: Request, trim: Bytes -> Bytes)
    requires QUESTION !in prefix && QUESTION !in record
    requires 1 <= request.page <= USIZE_MAX && trim(request.search) == request.search
    requires AreTexts(request.search, request.parent)
    ensures ReadRequest(prefix + ListTarget(record, request.page, request.search, request.parent), trim) == Some(request)
  {
    hide ListTarget, Param, ParseNumber, Digits, AreTexts;
    var page, search, parent := request.page, request.search, request.parent;
    AliasesAreOther();
    TargetReadsBack(prefix, record, page, search, parent, PARENT_RECORD_ALIAS);
    TargetReadsBack(prefix, record, page, search, parent, PARENT_ID_ALIAS);
    TargetReadsBack(prefix, record, page, search, parent, SEARCH);
    NumberReadBack(page);
  }

  lemma AliasesAreOther()
    ensures {PARENT_RECORD_ALIAS, PARENT_ID_ALIAS, SEARCH} !! {PAGE, Q, PARENT_RECORD, PARENT_ID}
  {
    assert |PARENT_RECORD_ALIAS| == 12 && |PARENT_ID_ALIAS| == 8 && |SEARCH| == 6;
    assert |PAGE| == 4 && |Q| == 1 && |PARENT_RECORD| == 13 && |PARENT_ID| == 9;
  }

  // ----- the list behind a request -----

  /**
   A list of one record type: where its paths start, how texts are trimmed, the
   stored rows narrowed to a parent, and which rows match a search.
   */
  datatype Listing = Listing(
    record: Bytes,
    prefix: Bytes,
    trim: Bytes -> Bytes,
    rowsFor: Option<Parent> -> seq<Row>,
    matches: (Row, Bytes) -> bool)

  function Matching(matches: (Row, Bytes) -> bool, search: Bytes): Row -> Option<Row> {
    row => if matches(row, search) then Some(row) else None
  }

  /** All rows of the list: sorted, and narrowed by a search that is not empty. */
  function ListRows(l: Listing, request: Request): seq<Row> {
    var sorted := Sorted(l.rowsFor(request.parent));
    if request.search == [] then sorted else Collect(sorted, Matching(l.matches, request.search))
  }

  function Shown(l: Listing, request: Request): seq<Row>
    requires request.page >= 1
  {
    PageRows(ListRows(l, request), request.page)
  }

  /** The path behind the link to the next page, when there is one. */
  function NextPath(l: Listing, request: Request): Option<Bytes>
    requires request.page >= 1
  {
    if HasNext(request.page, |ListRows(l, request)|)
    then Some(l.prefix + ListTarget(l.record, request.page + 1, request.search, request.parent)) else None
  }

  /** A trimmed text is a text, and trimming it again changes nothing. */
  ghost predicate Trims(trim: Bytes -> Bytes) {
    forall text :: trim(trim(text)) == trim(text) && (Valid(text) ==> Valid(trim(text)))
  }

  /** Trimming is trimming; names and paths hold no question mark; lists fit into memory. */
  ghost predicate WellFormed(l: Listing) {
    && QUESTION !in l.record && QUESTION !in l.prefix
    && Trims(l.trim)
    && (forall request: Request :: |ListRows(l, request)| <= USIZE_MAX)
  }

  // ----- following the links -----

  /** Paths from one page to the last: each but the last links to the one after it. */
  ghost predicate Journey(l: Listing, paths: seq<Bytes>)
    decreases |paths|
  {
    && paths != []
    && ReadRequest(paths[0], l.trim).Some?
    && var next := NextPath(l, ReadRequest(paths[0], l.trim).value);
       if |paths| == 1 then next == None else next == Some(paths[1]) && Journey(l, paths[1..])
  }

  ghost function AllShown(l: Listing, paths: seq<Bytes>): seq<Row>
    requires Journey(l, paths)
    decreases |paths|
  {
    var here := Shown(l, ReadRequest(paths[0], l.trim).value);
    if |paths| == 1 then here else here + AllShown(l, paths[1..])
  }

  lemma RequestIsTrimmed(path: Bytes, trim: Bytes -> Bytes)
    requires ReadRequest(path, trim).Some? && Trims(trim)
    ensures var request := ReadRequest(path, trim).value;
            request.page >= 1 && trim(request.search) == request.search && AreTexts(request.search, request.parent)
  {
    hide Param, ParseNumber, Valid;
    forall name {
      FoundIsText(path, name);
    }
    NothingIsValid();
  }

  /** The link of a page leads to the request for the next page of the same list. */
  lemma LinkLeadsToNextPage(l: Listing, path: Bytes)
    requires WellFormed(l) && ReadRequest(path, l.trim).Some?
    requires NextPath(l, ReadRequest(path, l.trim).value).Some?
    ensures var request := ReadRequest(path, l.trim).value;
            ReadRequest(NextPath(l, request).value, l.trim) == Some(request.(page := request.page + 1))
  {
    hide ListTarget, ListRows, ReadRequest;
    RequestIsTrimmed(path, l.trim);
    var request := ReadRequest(path, l.trim).value;
    NextPageContinues(request.page, |ListRows(l, request)|);
    TargetIsRequest(l.prefix, l.record, request.(page := request.page + 1), l.trim);
  }

  lemma {:induction false} JourneyShowsTheRest(l: Listing, paths: seq<Bytes>)
    requires WellFormed(l) && Journey(l, paths)
    ensures var request := ReadRequest(paths[0], l.trim).value;
            var list := ListRows(l, request);
            AllShown(l, paths) == list[PageStart(request.page, |list|)..]
    decreases |paths|
  {
    hide ReadRequest, ListRows, ListTarget, WellFormed;
    var request := ReadRequest(paths[0], l.trim).value;
    var list := ListRows(l, request);
    assert |list| <= USIZE_MAX by { ListFits(l, request); }
    if |paths| > 1 {
      LinkLeadsToNextPage(l, paths[0]);
      NextPageContinues(request.page, |list|);
      SameList(l, request, request.page + 1);
      JourneyShowsTheRest(l, paths[1..]);
      var i, j := PageStart(request.page, |list|), PageEnd(request.page, |list|);
      assert list[i..j] + list[j..] == list[i..];
    }
  }

  lemma ListFits(l: Listing, request: Request)
    requires WellFormed(l)
    ensures |ListRows(l, request)| <= USIZE_MAX
  {
  }

  lemma SameList(l: Listing, request: Request, page: nat)
    ensures ListRows(l, request.(page := page)) == ListRows(l, request)
  {
  }

  /** From the first page, the links show the whole list: every row once, in order. */
  lemma JourneyShowsEverything(l: Listing, paths: seq<Bytes>)
    requires WellFormed(l) && Journey(l, paths) && ReadRequest(paths[0], l.trim).value.page == 1
    ensures AllShown(l, paths) == ListRows(l, ReadRequest(paths[0], l.trim).value)
  {
    hide ReadRequest, ListRows;
    JourneyShowsTheRest(l, paths);
  }

  /** The links always come to an end. */
  lemma {:induction false} JourneyEnds(l: Listing, path: Bytes) returns (paths: seq<Bytes>)
    requires WellFormed(l) && ReadRequest(path, l.trim).Some?
    ensures Journey(l, paths) && paths[0] == path
    decreases var request := ReadRequest(path, l.trim).value;
              |ListRows(l, request)| - PageStart(request.page, |ListRows(l, request)|)
  {
    hide ReadRequest, ListRows;
    var request := ReadRequest(path, l.trim).value;
    var next := NextPath(l, request);
    if next.None? {
      paths := [path];
    } else {
      LinkLeadsToNextPage(l, path);
      NextPageContinues(request.page, |ListRows(l, request)|);
      SameList(l, request, request.page + 1);
      var rest := JourneyEnds(l, next.value);
      paths := [path] + rest;
      assert paths[1..] == rest;
    }
  }

  lemma {:induction false} MatchesAreCounted(rows: seq<Row>, l: Listing, search: Bytes, r: Row)
    ensures multiset(Collect(rows, Matching(l.matches, search)))[r] == if l.matches(r, search) then multiset(rows)[r] else 0
  {
    if rows != [] {
      var before, last := rows[..|rows| - 1], rows[|rows| - 1];
      MatchesAreCounted(before, l, search, r);
      assert rows == before + [last];
      assert Matching(l.matches, search)(last) == if l.matches(last, search) then Some(last) else None;
    }
  }

  lemma DescendingSnoc(rows: seq<Row>, last: Row)
    requires Descending(rows) && forall r :: r in rows ==> !Precedes(last, r)
    ensures Descending(rows + [last])
  {
    hide Precedes;
  }

  lemma {:induction false} CollectKeepsOrder(rows: seq<Row>, l: Listing, search: Bytes)
    requires Descending(rows)
    ensures Descending(Collect(rows, Matching(l.matches, search)))
  {
    hide Precedes;
    if rows != [] {
      var before, last := rows[..|rows| - 1], rows[|rows| - 1];
      CollectKeepsOrder(before, l, search);
      var kept := Collect(before, Matching(l.matches, search));
      forall r | r in kept
        ensures !Precedes(last, r)
      {
        MatchesAreCounted(before, l, search, r);
        assert r in multiset(kept);
        assert r in before;
      }
      DescendingSnoc(kept, last);
    }
  }

  /** What the list holds: every row that matches, as often as it is stored, in descending order. */
  lemma ListHoldsTheMatches(l: Listing, request: Request, r: Row)
    ensures Descending(ListRows(l, request)) && NewestFirst(ListRows(l, request))
    ensures multiset(ListRows(l, request))[r] ==
            if request.search == [] || l.matches(r, request.search) then multiset(l.rowsFor(request.parent))[r] else 0
  {
    hide Precedes;
    var rows := l.rowsFor(request.parent);
    SortSorts(rows);
    MatchesAreCounted(Sorted(rows), l, request.search, r);
    CollectKeepsOrder(Sorted(rows), l, request.search);
    DescendingIsNewestFirst(ListRows(l, request));
  }

  // ----- the order in which the store returns rows -----

  /** The same list over a store that returns the same rows, perhaps in another order. */
  ghost predicate SameRows(l: Listing, other: Listing) {
    && other == l.(rowsFor := other.rowsFor)
    && forall parent :: IdsIdentify(l.rowsFor(parent)) && multiset(l.rowsFor(parent)) == multiset(other.rowsFor(parent))
  }

  lemma StoreOrderDoesNotShow(l: Listing, other: Listing, request: Request)
    requires SameRows(l, other)
    ensures ListRows(l, request) == ListRows(other, request)
  {
    StoreOrderDoesNotMatter(l.rowsFor(request.parent), other.rowsFor(request.parent));
  }

  /** Every journey along the links is also one over the other store, and shows the same rows. */
  lemma {:induction false} StoreOrderDoesNotShowInJourneys(l: Listing, other: Listing, paths: seq<Bytes>)
    requires SameRows(l, other)
    ensures Journey(l, paths) <==> Journey(other, paths)
    ensures Journey(l, paths) ==> AllShown(l, paths) == AllShown(other, paths)
    decreases |paths|
  {
    hide ReadRequest, ListRows, SameRows, ListTarget;
    assert other.trim == l.trim && other.prefix == l.prefix && other.record == l.record by {
      SameNames(l, other);
    }
    if paths != [] {
      if ReadRequest(paths[0], l.trim).Some? {
        StoreOrderDoesNotShow(l, other, ReadRequest(paths[0], l.trim).value);
      }
      StoreOrderDoesNotShowInJourneys(l, other, paths[1..]);
    }
  }

  lemma SameNames(l: Listing, other: Listing)
    requires SameRows(l, other)
    ensures other.trim == l.trim && other.prefix == l.prefix && other.record == l.record
  {
  }

  // ----- ten rows a page, and what a request asks for -----

  /** Page p shows the rows from 10 (p - 1) to 10 p, as far as there are any, and has a next one exactly when more are left. */
  lemma TenPerPage(list: seq<Row>, page: nat)
    requires page >= 1 && |list| <= USIZE_MAX
    ensures 10 * (page - 1) >= |list| ==> PageRows(list, page) == []
    ensures 10 * (page - 1) < |list| <= 10 * page ==> PageRows(list, page) == list[10 * (page - 1)..]
    ensures 10 * page < |list| ==> PageRows(list, page) == list[10 * (page - 1)..10 * page]
    ensures HasNext(page, |list|) <==> 10 * page < |list|
  {
  }

  lemma AliasNames()
    ensures EncodeText("parentRecord") == PARENT_RECORD_ALIAS && EncodeText("parentId") == PARENT_ID_ALIAS
  {
    hide EncodeText;
    EncodeAscii("parentRecord", PARENT_RECORD_ALIAS);
    EncodeAscii("parentId", PARENT_ID_ALIAS);
  }

  /**
   A query asks for the page it numbers, or the first; for the text of `q`, or else of
   `search`, trimmed; and for a parent exactly when it names record and id, each under
   one of its two names, of which the first wins.
   */
  lemma RequestOf(before: Bytes, pairs: seq<Pair>, trim: Bytes -> Bytes)
    requires QUESTION !in before && pairs != [] && PlainNames(pairs) && TextValues(pairs)
    ensures var request := ReadRequest(before + [QUESTION] + QueryOf(pairs), trim);
            var page, q, search := FirstOf(pairs, PAGE), FirstOf(pairs, Q), FirstOf(pairs, SEARCH);
            var record, record' := FirstOf(pairs, PARENT_RECORD), FirstOf(pairs, PARENT_RECORD_ALIAS);
            var id, id' := FirstOf(pairs, PARENT_ID), FirstOf(pairs, PARENT_ID_ALIAS);
            && request.Some?
            && (page.Value? && ParseNumber(page.text).Some? && ParseNumber(page.text).value >= 1 ==>
                  request.value.page == ParseNumber(page.text).value)
            && (!(page.Value? && ParseNumber(page.text).Some? && ParseNumber(page.text).value >= 1) ==> request.value.page == 1)
            && (q.Value? ==> request.value.search == trim(q.text))
            && (!q.Value? && search.Value? ==> request.value.search == trim(search.text))
            && (!q.Value? && !search.Value? ==> request.value.search == trim([]))
            && (request.value.parent.Some? <==> (record.Value? || record'.Value?) && (id.Value? || id'.Value?))
            && (request.value.parent.Some? ==>
                  && request.value.parent.value.record == (if record.Value? then record.text else record'.text)
                  && request.value.parent.value.id == (if id.Value? then id.text else id'.text))
  {
    hide Param, QueryOf, FirstOf, ParseNumber;
    forall name
      ensures Param(before + [QUESTION] + QueryOf(pairs), name) == FirstOf(pairs, name) && !FirstOf(pairs, name).Stopped?
    {
      BuiltQueryIsReadBack(before, pairs, name);
      NeverStopped(pairs, name);
    }
  }

  lemma {:induction false} NeverStopped(pairs: seq<Pair>, name: Bytes)
    ensures !FirstOf(pairs, name).Stopped?
  {
    if pairs != [] {
      NeverStopped(pairs[1..], name);
    }
  }
}
