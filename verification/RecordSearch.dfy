/**
 Searching the rows of a record list: the id or any value inside the row holds
 the search text, whatever its case.
 */
module RecordSearch {
  import opened Json
  import opened Texts
  import opened Records

  predicate ValueContains(value: Value, query: string) {
    match value
    case Null => false
    case Bool(flag) => Contains(if flag then "true" else "false", query)
    case Num(digits, _) => Contains(Lower(digits), query)
    case Str(text) => Contains(Lower(text), query)
    case Arr(items) => exists i :: 0 <= i < |items| && ValueContains(items[i], query)
    case Obj(fields) => exists key :: key in fields && ValueContains(fields[key], query)
  }

  predicate MatchesSearch(row: Row, search: string) {
    Contains(Lower(row.id), Lower(search)) || ValueContains(row.data, Lower(search))
  }

  lemma {:induction false} PartIsContained(value: Value, query: string, part: string)
    requires ValueContains(value, query) && Contains(query, part)
    ensures ValueContains(value, part)
  {
    hide Contains;
    match value {
      case Bool(flag) => ContainsPart(if flag then "true" else "false", query, part);
      case Num(digits, _) => ContainsPart(Lower(digits), query, part);
      case Str(text) => ContainsPart(Lower(text), query, part);
      case Arr(items) =>
        var i :| 0 <= i < |items| && ValueContains(items[i], query);
        PartIsContained(items[i], query, part);
      case Obj(fields) =>
        var key :| key in fields && ValueContains(fields[key], query);
        PartIsContained(fields[key], query, part);
    }
  }

  /** A search finds every row that a longer search holding it finds. */
  lemma ShorterSearchFindsMore(row: Row, search: string, part: string)
    requires MatchesSearch(row, search) && Contains(search, part)
    ensures MatchesSearch(row, part)
  {
    hide Contains;
    LowerContains(search, part);
    if ValueContains(row.data, Lower(search)) {
      PartIsContained(row.data, Lower(search), Lower(part));
    } else {
      ContainsPart(Lower(row.id), Lower(search), Lower(part));
    }
  }

  /** The text that a scalar shows to a search. */
  function Shown(value: Value): Option<string> {
    match value
    case Bool(flag) => Some(if flag then "true" else "false")
    case Num(digits, _) => Some(Lower(digits))
    case Str(text) => Some(Lower(text))
    case _ => None
  }

  ghost predicate ShowsInside(value: Value, way: seq<Turn>, query: string) {
    Inside(value, way).Some? && Shown(Inside(value, way).value).Some? && Contains(Shown(Inside(value, way).value).value, query)
  }

  lemma ContainsInside(value: Value, query: string)
    requires value.Arr? || value.Obj?
    ensures ValueContains(value, query) <==>
            exists turn :: Enter(value, turn).Some? && ValueContains(Enter(value, turn).value, query)
  {
    if value.Arr? && ValueContains(value, query) {
      var i :| 0 <= i < |value.items| && ValueContains(value.items[i], query);
      assert Enter(value, Item(i)) == Some(value.items[i]);
    } else if value.Obj? && ValueContains(value, query) {
      var key :| key in value.fields && ValueContains(value.fields[key], query);
      assert Enter(value, Key(key)) == Some(value.fields[key]);
    }
  }

  /** A value holds a search text exactly when some scalar inside it, at whatever depth, shows it. */
  lemma {:induction false} ContainsExactlyInside(value: Value, query: string)
    ensures ValueContains(value, query) <==> exists way :: ShowsInside(value, way, query)
    decreases value
  {
    hide Contains, Enter;
    if value.Arr? || value.Obj? {
      ContainsInside(value, query);
      hide ValueContains;
      if ValueContains(value, query) {
        var turn :| Enter(value, turn).Some? && ValueContains(Enter(value, turn).value, query);
        var inner := Enter(value, turn).value;
        ContainsExactlyInside(inner, query);
        var way: seq<Turn> :| ShowsInside(inner, way, query);
        InsideFirst(value, turn, way);
        assert ShowsInside(value, [turn] + way, query);
      }
      if way: seq<Turn> :| ShowsInside(value, way, query) {
        assert way != [];
        var inner := Enter(value, way[0]).value;
        assert ShowsInside(inner, way[1..], query);
        ContainsExactlyInside(inner, query);
      }
    } else {
      assert ValueContains(value, query) <==> ShowsInside(value, [], query);
    }
  }

  /** A text or number, in lower case, or the name of a flag, holds this. */
  predicate ScalarHolds(v: Value, query: string) {
    || (v.Str? && Contains(Lower(v.text), query)) || (v.Num? && Contains(Lower(v.digits), query))
    || (v == Bool(true) && Contains("true", query)) || (v == Bool(false) && Contains("false", query))
  }

  /** A row matches exactly when its id, or a text, number or flag anywhere in it, holds the search, whatever the case. */
  lemma FoundExactly(row: Row, search: string)
    ensures MatchesSearch(row, search) <==>
            || Contains(Lower(row.id), Lower(search))
            || exists way :: Inside(row.data, way).Some? && ScalarHolds(Inside(row.data, way).value, Lower(search))
  {
    hide Contains, ValueContains, Inside;
    ContainsExactlyInside(row.data, Lower(search));
    if way: seq<Turn> :| ShowsInside(row.data, way, Lower(search)) {
      assert ScalarHolds(Inside(row.data, way).value, Lower(search));
    }
    if way: seq<Turn> :| Inside(row.data, way).Some? && ScalarHolds(Inside(row.data, way).value, Lower(search)) {
      assert ShowsInside(row.data, way, Lower(search));
    }
  }
}
