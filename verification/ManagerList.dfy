/**
 The manager's record list from end to end: the store and the hierarchy at one
 end, the rows shown on the pages that the links lead to at the other.
 */
module ManagerList {
  import opened Json
  import opened Utf8
  import opened QueryText
  import opened Texts
  import opened Sequences
  import opened QueryParams
  import opened Records
  import opened Hierarchy
  import opened ParentContext
  import opened RecordList
  import opened RecordSearch
  import opened ListPages
  import Cards

  /** What the list is made from. */
  datatype Manager = Manager(
    g: Graph,
    store: Rows,
    prefix: Bytes)

  /** A text without the white space around it. */
  function TrimmedText(text: Bytes): Bytes {
    EncodeText(Trim(ReadText(text)))
  }

  function MatchesText(row: Row, search: Bytes): bool {
    MatchesSearch(row, ReadText(search))
  }

  lemma TrimmedTextTrims()
    ensures Trims(TrimmedText) && TrimmedText([]) == []
    ensures forall text :: ReadText(TrimmedText(text)) == Trim(ReadText(text))
  {
    hide ReadText, EncodeText, Trim, Valid;
    forall text
      ensures TrimmedText(TrimmedText(text)) == TrimmedText(text) && Valid(TrimmedText(text))
      ensures ReadText(TrimmedText(text)) == Trim(ReadText(text))
    {
      var trimmed := Trim(ReadText(text));
      ReadEncoded(trimmed);
      TrimTwice(ReadText(text));
      EncodeTextValid(trimmed);
    }
    assert TrimmedText([]) == [] by { NothingToTrim(); }
  }

  lemma NothingToTrim()
    ensures TrimmedText([]) == []
  {
  }

  ghost function RowsUnder(m: Manager, record: Bytes, parent: Option<Parent>): seq<Row> {
    var rows := m.store(ReadText(record));
    if parent.None? then rows
    else Narrowed(m.g, m.store, rows, ReadText(record), ReadText(parent.value.record), ReadText(parent.value.id))
  }

  ghost function ListingOf(m: Manager, record: Bytes): Listing {
    Listing(record, m.prefix, TrimmedText, parent => RowsUnder(m, record, parent), MatchesText)
  }

  /** A row the list may show: it matches the search, if there is one. */
  predicate Sought(search: Bytes, row: Row) {
    search == [] || MatchesSearch(row, ReadText(search))
  }

  /** Names and paths hold no question mark, and the rows fit into memory. */
  ghost predicate Serves(m: Manager, record: Bytes) {
    QUESTION !in m.prefix && QUESTION !in record && |m.store(ReadText(record))| <= USIZE_MAX
  }

  lemma NarrowedIsShorter(g: Graph, store: Rows, rows: seq<Row>, target: string, parent: string, id: string)
    ensures |Narrowed(g, store, rows, target, parent, id)| <= |rows|
  {
  }

  lemma ListingIsWellFormed(m: Manager, record: Bytes)
    requires Serves(m, record)
    ensures WellFormed(ListingOf(m, record))
  {
    hide Narrowed, Sorted, Trims, TrimmedText;
    var l := ListingOf(m, record);
    TrimmedTextTrims();
    forall request: Request
      ensures |ListRows(l, request)| <= USIZE_MAX
    {
      var rows := l.rowsFor(request.parent);
      assert |rows| <= |m.store(ReadText(record))| by {
        if request.parent.Some? {
          var p := request.parent.value;
          NarrowedIsShorter(m.g, m.store, m.store(ReadText(record)), ReadText(record), ReadText(p.record), ReadText(p.id));
        }
      }
      SortSorts(rows);
      PermutationLength(Sorted(rows), rows);
    }
  }

  lemma ShownFromPageOne(m: Manager, record: Bytes, paths: seq<Bytes>, row: Row)
    requires Serves(m, record) && Journey(ListingOf(m, record), paths)
    requires ReadRequest(paths[0], TrimmedText).value.page == 1
    ensures var request := ReadRequest(paths[0], TrimmedText).value;
            var shown := AllShown(ListingOf(m, record), paths);
            && NewestFirst(shown)
            && multiset(shown)[row] ==
               if Sought(request.search, row) then multiset(RowsUnder(m, record, request.parent))[row] else 0
  {
    hide AllShown, ReadRequest, ListRows, NewestFirst, RowsUnder, WellFormed;
    var l := ListingOf(m, record);
    ListingIsWellFormed(m, record);
    JourneyShowsEverything(l, paths);
    ListHoldsTheMatches(l, ReadRequest(paths[0], TrimmedText).value, row);
  }

  /** Opened without a parent, the pages show exactly the matching rows of the store. */
  lemma PagesShowAll(m: Manager, record: Bytes, paths: seq<Bytes>, row: Row)
    requires Serves(m, record) && Journey(ListingOf(m, record), paths)
    requires ReadRequest(paths[0], TrimmedText).value.page == 1 && ReadRequest(paths[0], TrimmedText).value.parent == None
    ensures var shown := AllShown(ListingOf(m, record), paths);
            && NewestFirst(shown)
            && multiset(shown)[row] ==
               if Sought(ReadRequest(paths[0], TrimmedText).value.search, row) then multiset(m.store(ReadText(record)))[row] else 0
  {
    hide AllShown, ReadRequest, NewestFirst;
    ShownFromPageOne(m, record, paths, row);
  }

  /**
   Opened under a parent and followed from page one to the last, the list shows, newest
   first and as often as the store has them, exactly the matching rows to which a
   chain of linked rows leads from the parent along the first path.
   */
  lemma PagesShowTheDescendants(m: Manager, record: Bytes, paths: seq<Bytes>, path: seq<Step>, row: Row)
    requires Serves(m, record) && Journey(ListingOf(m, record), paths)
    requires ReadRequest(paths[0], TrimmedText).value.page == 1
    requires var parent := ReadRequest(paths[0], TrimmedText).value.parent;
             && parent.Some? && ReadText(parent.value.record) != ReadText(record)
             && FirstPath(m.g, ReadText(parent.value.record), path, ReadText(record))
    ensures var request := ReadRequest(paths[0], TrimmedText).value;
            var parent, id := ReadText(request.parent.value.record), ReadText(request.parent.value.id);
            var shown := AllShown(ListingOf(m, record), paths);
            && NewestFirst(shown)
            && multiset(shown)[row] ==
               if Sought(request.search, row) &&
                  ChainEndsAt(m.store, path, ContextIds(m.store(parent), id, parent), row.id)
               then multiset(m.store(ReadText(record)))[row] else 0
  {
    hide AllShown, ReadRequest, NewestFirst, WellFormed, FirstPath, Narrowed, ContextIds, KeepRows, IdsAfter, ChainEndsAt;
    var request := ReadRequest(paths[0], TrimmedText).value;
    var parent, id := ReadText(request.parent.value.record), ReadText(request.parent.value.id);
    ShownFromPageOne(m, record, paths, row);
    var rows, start := m.store(ReadText(record)), ContextIds(m.store(parent), id, parent);
    NarrowedAlong(m.g, m.store, rows, ReadText(record), parent, id, path);
    KeptCounts(rows, IdsAfter(m.store, path, start), row);
    FirstPathIsShortest(m.g, parent, path, ReadText(record));
    assert path != [];
    JoinIsChains(m.store, path, start);
  }

  // ----- from the create card to the list -----

  const PARENT_PART: string := "?parent_record="
  const ID_PART: string := "&parent_id="

  lemma RecordsText()
    ensures EncodeText("records/") == RECORDS
  {
    hide EncodeText;
    EncodeAscii("records/", RECORDS);
  }

  lemma ParentPartText()
    ensures EncodeText(PARENT_PART) == [QUESTION] + PARENT_RECORD + [EQUALS]
  {
    hide EncodeText;
    EncodeAscii(PARENT_PART, [QUESTION] + PARENT_RECORD + [EQUALS]);
  }

  lemma IdPartText()
    ensures EncodeText(ID_PART) == [AMPERSAND] + PARENT_ID + [EQUALS]
  {
    hide EncodeText;
    EncodeAscii(ID_PART, [AMPERSAND] + PARENT_ID + [EQUALS]);
  }

  function ContextPairs(parent: string, id: string): seq<Pair> {
    [Pair(PARENT_RECORD, EncodeText(parent)), Pair(PARENT_ID, EncodeText(id))]
  }

  /** The bytes of a create card's target are those of a query. */
  lemma ContextTargetIsQuery(child: string, parent: string, id: string)
    ensures EncodeText(Cards.ContextTarget(child, parent, id)) ==
            RECORDS + EncodeText(child) + [QUESTION] + QueryOf(ContextPairs(parent, id))
  {
    hide EncodeText, Encoded, PercentEncoded;
    var a, b := PercentEncoded(parent), PercentEncoded(id);
    RecordsText();
    ParentPartText();
    IdPartText();
    EncodeConcat("records/", child);
    EncodeConcat(PARENT_PART, a);
    EncodeConcat(PARENT_PART + a, ID_PART);
    EncodeConcat(PARENT_PART + a + ID_PART, b);
    EncodeConcat(Cards.ListTarget(child), PARENT_PART + a + ID_PART + b);
    var pairs := ContextPairs(parent, id);
    assert pairs[1..] == [pairs[1]];
  }

  /** A create card leads back to the first page of the list under its parent. */
  lemma ContextTargetIsRequest(prefix: Bytes, child: string, parent: string, id: string, trim: Bytes -> Bytes)
    requires QUESTION !in prefix && QUESTION !in EncodeText(child) && trim([]) == []
    ensures ReadRequest(prefix + EncodeText(Cards.ContextTarget(child, parent, id)), trim) ==
            Some(Request(1, [], Some(Parent(EncodeText(parent), EncodeText(id)))))
  {
    hide Param, QueryOf, EncodeText;
    var before, pairs := prefix + (RECORDS + EncodeText(child)), ContextPairs(parent, id);
    var path := prefix + EncodeText(Cards.ContextTarget(child, parent, id));
    ContextTargetIsQuery(child, parent, id);
    assert path == before + [QUESTION] + QueryOf(pairs);
    ContextPairsAreTexts(parent, id);
    forall name {
      BuiltQueryIsReadBack(before, pairs, name);
    }
    FindInContext(parent, id);
  }

  lemma ContextPairsAreTexts(parent: string, id: string)
    ensures PlainNames(ContextPairs(parent, id)) && TextValues(ContextPairs(parent, id))
  {
    hide EncodeText, Valid;
    EncodeTextValid(parent);
    EncodeTextValid(id);
    assert PlainName(PARENT_RECORD) && PlainName(PARENT_ID);
  }

  lemma FirstOfTwo(a: Pair, b: Pair, name: Bytes)
    ensures FirstOf([a, b], name) ==
            if a.name == name then QueryParams.Value(a.value)
            else if b.name == name then QueryParams.Value(b.value) else Absent
  {
    assert [a, b][1..] == [b];
    assert FirstOf([b], name) == if b.name == name then QueryParams.Value(b.value) else FirstOf([], name) by {
      assert [b][1..] == [];
    }
    assert FirstOf([], name) == Absent;
  }

  lemma FindInContext(parent: string, id: string)
    ensures var pairs := ContextPairs(parent, id);
            && FirstOf(pairs, PARENT_RECORD) == QueryParams.Value(EncodeText(parent))
            && FirstOf(pairs, PARENT_ID) == QueryParams.Value(EncodeText(id))
            && FirstOf(pairs, PAGE) == Absent && FirstOf(pairs, Q) == Absent && FirstOf(pairs, SEARCH) == Absent
  {
    hide FirstOf, EncodeText;
    var a, b := Pair(PARENT_RECORD, EncodeText(parent)), Pair(PARENT_ID, EncodeText(id));
    forall name {
      FirstOfTwo(a, b, name);
    }
    assert |PAGE| == 4 && |Q| == 1 && |SEARCH| == 6 && |PARENT_RECORD| == 13 && |PARENT_ID| == 9;
  }

  /**
   A row created from a parent one link above, with the text that the create card
   fills in, shows on the pages that the card's own target leads to, exactly unless
   the parent's own field is empty.
   */
  lemma CreatedChildIsShown(m: Manager, child: string, parent: string, id: string, path: seq<Step>, paths: seq<Bytes>, row: Row)
    requires Serves(m, EncodeText(child)) && Journey(ListingOf(m, EncodeText(child)), paths)
    requires paths[0] == m.prefix + EncodeText(Cards.ContextTarget(child, parent, id))
    requires child != parent && FirstPath(m.g, parent, path, child) && |path| == 1
    requires row in m.store(child) && IdsIdentify(m.store(child))
    requires forall r :: r in m.store(parent) ==> NumbersPrint(r.data)
    requires row.data.Get(path[0].field) == Some(Str(ParentValue(m.store(parent), id, parent)))
    ensures row in AllShown(ListingOf(m, EncodeText(child)), paths) <==> !OwnFieldIsEmpty(m.store(parent), id, parent)
  {
    hide AllShown, ReadRequest, NewestFirst, Narrowed, FirstPath, ParentValue, OwnFieldIsEmpty, NumbersPrint, ReadText, EncodeText;
    var l := ListingOf(m, EncodeText(child));
    TrimmedTextTrims();
    ContextTargetIsRequest(m.prefix, child, parent, id, TrimmedText);
    ReadEncoded(child);
    ReadEncoded(parent);
    ReadEncoded(id);
    ShownFromPageOne(m, EncodeText(child), paths, row);
    CreatedChildIsListed(m.g, m.store, child, parent, id, path, row);
    var shown, rows := AllShown(l, paths), Narrowed(m.g, m.store, m.store(child), child, parent, id);
    assert row in shown <==> multiset(shown)[row] > 0;
    assert row in rows <==> multiset(rows)[row] > 0;
  }
}
