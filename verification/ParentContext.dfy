/**
 Narrowing a record list to one parent: the rows of the target record that hang,
 through the chain of links found in the hierarchy, off the given parent row.
 */
module ParentContext {
  import opened Json
  import opened Sequences
  import opened Texts
  import opened TextOrder
  import opened FieldNames
  import opened Records
  import opened Hierarchy

  const ID_KEYS := ["id", "value", "record_id"]

  // ----- link values -----

  /** A link value matches when one of the ids occurs in it: plainly, in a list, or under an id key. */
  predicate MatchesIds(value: Value, ids: set<string>) {
    match value
    case Str(s) => s in ids
    case Arr(items) => exists i :: 0 <= i < |items| && MatchesIds(items[i], ids)
    case Obj(fields) => exists key :: key in fields && key in ID_KEYS && MatchesIds(fields[key], ids)
    case _ => false
  }

  lemma {:induction false} MatchesOneId(value: Value, ids: set<string>)
    ensures MatchesIds(value, ids) <==> exists id :: id in ids && MatchesIds(value, {id})
  {
    match value {
      case Arr(items) =>
        forall i | 0 <= i < |items| {
          MatchesOneId(items[i], ids);
        }
        if id :| id in ids && MatchesIds(value, {id}) {
          var i :| 0 <= i < |items| && MatchesIds(items[i], {id});
          assert MatchesIds(items[i], ids);
        }
      case Obj(fields) =>
        forall key | key in fields {
          MatchesOneId(fields[key], ids);
        }
        if id :| id in ids && MatchesIds(value, {id}) {
          var key :| key in fields && key in ID_KEYS && MatchesIds(fields[key], {id});
          assert MatchesIds(fields[key], ids);
        }
      case _ =>
    }
  }

  predicate LinksTo(row: Row, field: string, ids: set<string>) {
    row.data.Get(field).Some? && MatchesIds(row.data.Get(field).value, ids)
  }

  lemma LinksToOne(row: Row, field: string, ids: set<string>)
    ensures LinksTo(row, field, ids) <==> exists id :: id in ids && LinksTo(row, field, {id})
  {
    if row.data.Get(field).Some? {
      MatchesOneId(row.data.Get(field).value, ids);
    }
  }

  // ----- the ids that stand for a parent row -----

  /** The texts by which an identifier value can be referred to; empty texts do not count. */
  function ScalarIds(value: Value): (ids: set<string>) {
    match value
    case Str(s) => if s == "" then {} else {s}
    case Num(digits, _) => {digits}
    case Arr(items) => set i, id | 0 <= i < |items| && id in ScalarIds(items[i]) :: id
    case Obj(fields) => set key, id | key in fields && key in ID_KEYS && id in ScalarIds(fields[key]) :: id
    case _ => {}
  }

  /** Every non-empty text by which a link could match a value is one of the value's ids. */
  lemma {:induction false} MatchedTextIsId(value: Value, id: string)
    requires id != "" && MatchesIds(value, {id})
    ensures id in ScalarIds(value)
  {
    match value {
      case Arr(items) =>
        var i :| 0 <= i < |items| && MatchesIds(items[i], {id});
        MatchedTextIsId(items[i], id);
      case Obj(fields) =>
        var key :| key in fields && key in ID_KEYS && MatchesIds(fields[key], {id});
        MatchedTextIsId(fields[key], id);
      case _ =>
    }
  }

  predicate EndsWith(s: string, suffix: string) {
    |suffix| <= |s| && s[|s| - |suffix|..] == suffix
  }

  // ----- which texts are ids, by the ways that lead to them -----

  /** Into a list, or under one of the three keys where identifiers nest. */
  predicate IdTurn(turn: Turn) {
    turn.Item? || turn.key == "id" || turn.key == "value" || turn.key == "record_id"
  }

  predicate IdWay(way: seq<Turn>) {
    forall i :: 0 <= i < |way| ==> IdTurn(way[i])
  }

  /** The way ends at this text, which is not empty, or at a number that prints as it. */
  ghost predicate IdAt(value: Value, way: seq<Turn>, text: string) {
    IdWay(way) && Inside(value, way).Some? &&
    var end := Inside(value, way).value;
    (end == Str(text) && text != "") || (end.Num? && end.digits == text)
  }

  /** The way ends at one of the texts. */
  ghost predicate TextAt(value: Value, way: seq<Turn>, ids: set<string>) {
    IdWay(way) && Inside(value, way).Some? && Inside(value, way).value.Str? && Inside(value, way).value.text in ids
  }

  lemma IdWayFirst(turn: Turn, way: seq<Turn>)
    ensures IdWay([turn] + way) <==> IdTurn(turn) && IdWay(way)
    ensures IdWay([])
  {
    hide IdTurn;
    var whole := [turn] + way;
    assert whole[0] == turn && forall i :: 0 <= i < |way| ==> whole[i + 1] == way[i];
  }

  lemma ScalarIdsInside(value: Value, text: string)
    requires value.Arr? || value.Obj?
    ensures text in ScalarIds(value) <==>
            exists turn :: IdTurn(turn) && Enter(value, turn).Some? && text in ScalarIds(Enter(value, turn).value)
  {
    if value.Arr? && text in ScalarIds(value) {
      var i :| 0 <= i < |value.items| && text in ScalarIds(value.items[i]);
      assert Enter(value, Item(i)) == Some(value.items[i]);
    } else if value.Obj? && text in ScalarIds(value) {
      var key :| key in value.fields && key in ID_KEYS && text in ScalarIds(value.fields[key]);
      assert Enter(value, Key(key)) == Some(value.fields[key]);
    }
    if turn :| IdTurn(turn) && Enter(value, turn).Some? && text in ScalarIds(Enter(value, turn).value) {
      if value.Arr? {
        assert text in ScalarIds(value.items[turn.index]);
      } else {
        assert turn.key in ID_KEYS && text in ScalarIds(value.fields[turn.key]);
      }
    }
  }

  lemma MatchesIdsInside(value: Value, ids: set<string>)
    requires value.Arr? || value.Obj?
    ensures MatchesIds(value, ids) <==>
            exists turn :: IdTurn(turn) && Enter(value, turn).Some? && MatchesIds(Enter(value, turn).value, ids)
  {
    if value.Arr? && MatchesIds(value, ids) {
      var i :| 0 <= i < |value.items| && MatchesIds(value.items[i], ids);
      assert Enter(value, Item(i)) == Some(value.items[i]);
    } else if value.Obj? && MatchesIds(value, ids) {
      var key :| key in value.fields && key in ID_KEYS && MatchesIds(value.fields[key], ids);
      assert Enter(value, Key(key)) == Some(value.fields[key]);
    }
  }

  /** The texts that stand for a value are exactly those at the ends of such ways. */
  lemma {:induction false} ScalarIdsExactly(value: Value, text: string)
    ensures text in ScalarIds(value) <==> exists way :: IdAt(value, way, text)
    decreases value
  {
    hide Enter, IdWay, IdTurn;
    IdWayFirst(Item(0), []);
    if value.Arr? || value.Obj? {
      ScalarIdsInside(value, text);
      hide ScalarIds;
      if text in ScalarIds(value) {
        var turn :| IdTurn(turn) && Enter(value, turn).Some? && text in ScalarIds(Enter(value, turn).value);
        var inner := Enter(value, turn).value;
        ScalarIdsExactly(inner, text);
        var way: seq<Turn> :| IdAt(inner, way, text);
        InsideFirst(value, turn, way);
        IdWayFirst(turn, way);
        assert IdAt(value, [turn] + way, text);
      }
      if way: seq<Turn> :| IdAt(value, way, text) {
        assert way != [] && way == [way[0]] + way[1..];
        IdWayFirst(way[0], way[1..]);
        var inner := Enter(value, way[0]).value;
        assert IdAt(inner, way[1..], text);
        ScalarIdsExactly(inner, text);
      }
    } else {
      assert text in ScalarIds(value) <==> IdAt(value, [], text);
    }
  }

  /** A link value matches exactly when such a way ends at one of the ids. */
  lemma {:induction false} MatchesIdsExactly(value: Value, ids: set<string>)
    ensures MatchesIds(value, ids) <==> exists way :: TextAt(value, way, ids)
    decreases value
  {
    hide Enter, IdWay, IdTurn;
    IdWayFirst(Item(0), []);
    if value.Arr? || value.Obj? {
      MatchesIdsInside(value, ids);
      hide MatchesIds;
      if MatchesIds(value, ids) {
        var turn :| IdTurn(turn) && Enter(value, turn).Some? && MatchesIds(Enter(value, turn).value, ids);
        var inner := Enter(value, turn).value;
        MatchesIdsExactly(inner, ids);
        var way: seq<Turn> :| TextAt(inner, way, ids);
        InsideFirst(value, turn, way);
        IdWayFirst(turn, way);
        assert TextAt(value, [turn] + way, ids);
      }
      if way: seq<Turn> :| TextAt(value, way, ids) {
        assert way != [] && way == [way[0]] + way[1..];
        IdWayFirst(way[0], way[1..]);
        var inner := Enter(value, way[0]).value;
        assert TextAt(inner, way[1..], ids);
        MatchesIdsExactly(inner, ids);
      }
    } else {
      assert MatchesIds(value, ids) <==> TextAt(value, [], ids);
    }
  }

  /** Conversely, an id of a value is a text by which links match it, or the digits of a number inside it. */
  lemma IdIsMatchedText(value: Value, id: string)
    requires id in ScalarIds(value)
    ensures (id != "" && MatchesIds(value, {id})) ||
            exists way :: IdWay(way) && Inside(value, way).Some? && Inside(value, way).value.Num? && Inside(value, way).value.digits == id
  {
    hide ScalarIds, MatchesIds, IdWay, Inside;
    ScalarIdsExactly(value, id);
    var way: seq<Turn> :| IdAt(value, way, id);
    if Inside(value, way).value.Str? {
      assert TextAt(value, way, {id});
    }
    MatchesIdsExactly(value, {id});
  }

  /** The fields that identify a row: its id, the field named after its record, and uuids. */
  predicate IsIdentifierKey(key: string, record: string) {
    var k := Lower(key);
    k == "id" || k == "record_id" || k == DefaultField(record) || EndsWith(k, "_uuid")
  }

  /** The field named after the record is always one of them. */
  lemma OwnFieldIdentifies(record: string)
    ensures IsIdentifierKey(DefaultField(record), record)
  {
    hide Snake;
    SnakeIsSnake(record);
    var key := DefaultField(record);
    assert forall i :: 0 <= i < |key| ==> !IsUpper(key[i]);
    assert Lower(key) == key;
  }

  function RowIds(data: Value, record: string): (ids: set<string>) {
    if data.Obj?
    then set key, id | key in data.fields && IsIdentifierKey(key, record) && id in ScalarIds(data.fields[key]) :: id
    else {}
  }

  function FindRow(rows: seq<Row>, id: string): (row: Option<Row>)
    ensures row.Some? ==> row.value in rows && row.value.id == id
    ensures row.None? ==> forall r :: r in rows ==> r.id != id
  {
    if rows == [] then None else if rows[0].id == id then Some(rows[0]) else FindRow(rows[1..], id)
  }

  /** It is the first row with that id. */
  lemma {:induction false} FirstRow(rows: seq<Row>, id: string, i: nat)
    requires i < |rows| && rows[i].id == id && forall j :: 0 <= j < i ==> rows[j].id != id
    ensures FindRow(rows, id) == Some(rows[i])
  {
    if i > 0 {
      FirstRow(rows[1..], id, i - 1);
    }
  }

  /** The parent's id and every identifier its row carries. */
  function ContextIds(rows: seq<Row>, id: string, record: string): (ids: set<string>)
    ensures id in ids
  {
    {id} + (if FindRow(rows, id).Some? then RowIds(FindRow(rows, id).value.data, record) else {})
  }

  /** A link that names a parent row by any text of its identifier fields belongs to the parent. */
  lemma IdentifierTextLinks(rows: seq<Row>, id: string, record: string, key: string, text: string, child: Row, field: string)
    requires FindRow(rows, id).Some? && IsIdentifierKey(key, record)
    requires FindRow(rows, id).value.data.Get(key).Some?
    requires text != "" && MatchesIds(FindRow(rows, id).value.data.Get(key).value, {text})
    requires LinksTo(child, field, {text})
    ensures LinksTo(child, field, ContextIds(rows, id, record))
  {
    hide LinksTo, IsIdentifierKey;
    MatchedTextIsId(FindRow(rows, id).value.data.Get(key).value, text);
    LinksToOne(child, field, ContextIds(rows, id, record));
  }

  /** Under a key that is, in lower case, one of these, a row holds a value that stands for it by this text. */
  ghost predicate Identifies(row: Row, record: string, key: string, way: seq<Turn>, text: string) {
    && row.data.Get(key).Some? && IdAt(row.data.Get(key).value, way, text)
    && (|| Lower(key) == "id" || Lower(key) == "record_id" || Lower(key) == Snake(record) + "_id"
        || (|key| >= 5 && Lower(key)[|key| - 5..] == "_uuid"))
  }

  /** A parent is known by its id and by whatever the identifier fields of its row lead to, and by nothing else. */
  lemma ContextIdsExactly(rows: seq<Row>, id: string, record: string, text: string)
    ensures text in ContextIds(rows, id, record) <==>
            text == id || (FindRow(rows, id).Some? && exists key, way :: Identifies(FindRow(rows, id).value, record, key, way, text))
  {
    hide ScalarIds, IdAt;
    if FindRow(rows, id).Some? {
      var row := FindRow(rows, id).value;
      forall key | row.data.Get(key).Some?
        ensures text in ScalarIds(row.data.Get(key).value) <==> exists way :: IdAt(row.data.Get(key).value, way, text)
        ensures IsIdentifierKey(key, record) <==>
                || Lower(key) == "id" || Lower(key) == "record_id" || Lower(key) == Snake(record) + "_id"
                || (|key| >= 5 && Lower(key)[|key| - 5..] == "_uuid")
      {
        ScalarIdsExactly(row.data.Get(key).value, text);
      }
      hide IsIdentifierKey;
      if text in RowIds(row.data, record) {
        var key :| row.data.Get(key).Some? && IsIdentifierKey(key, record) && text in ScalarIds(row.data.Get(key).value);
        var way: seq<Turn> :| IdAt(row.data.Get(key).value, way, text);
        assert Identifies(row, record, key, way, text);
      }
    }
  }

  // ----- the text by which a new child refers to its parent -----

  /** The text in the field named after the record, or else the least identifier of the row. */
  ghost function BusinessId(record: string, data: Value): Option<string> {
    var own := data.Get(DefaultField(record));
    if own.Some? && own.value.Str? then Some(own.value.text)
    else if RowIds(data, record) == {} then None
    else Some(Least(RowIds(data, record)))
  }

  ghost function ParentValue(rows: seq<Row>, id: string, record: string): string {
    var row := FindRow(rows, id);
    if row.Some? && BusinessId(record, row.value.data).Some? then BusinessId(record, row.value.data).value
    else
      var others := ContextIds(rows, id, record) - {id};
      if others == {} then id else Least(others)
  }

  method ParentContextValue(rows: seq<Row>, id: string, record: string) returns (value: string)
    ensures value == ParentValue(rows, id, record)
  {
    hide RowIds;
    var row := FindRow(rows, id);
    if row.Some? {
      var own := row.value.data.Get(DefaultField(record));
      if own.Some? && own.value.Str? {
        return own.value.text;
      }
      var ids := RowIds(row.value.data, record);
      if ids != {} {
        value := FindLeast(ids);
        return;
      }
    }
    var others := ContextIds(rows, id, record) - {id};
    if others == {} {
      return id;
    }
    value := FindLeast(others);
  }

  /** That text is the one in the row's own field, or else its least identifier, or else the parent's id. */
  lemma ParentValueExactly(rows: seq<Row>, id: string, record: string)
    ensures var row, value := FindRow(rows, id), ParentValue(rows, id, record);
            if row.None? then value == id
            else
              var own := row.value.data.Get(Snake(record) + "_id");
              if own.Some? && own.value.Str? then value == own.value.text
              else if RowIds(row.value.data, record) == {} then value == id
              else IsLeast(RowIds(row.value.data, record), value)
  {
    hide RowIds;
    assert {id} + {} - {id} == {};
  }

  /** Every number prints as something. */
  predicate NumbersPrint(value: Value) {
    match value
    case Num(digits, _) => digits != ""
    case Arr(items) => forall i :: 0 <= i < |items| ==> NumbersPrint(items[i])
    case Obj(fields) => forall key :: key in fields ==> NumbersPrint(fields[key])
    case _ => true
  }

  lemma {:induction false} NoEmptyId(value: Value)
    requires NumbersPrint(value)
    ensures "" !in ScalarIds(value)
  {
    match value {
      case Arr(items) =>
        forall i | 0 <= i < |items| {
          NoEmptyId(items[i]);
        }
      case Obj(fields) =>
        forall key | key in fields {
          NoEmptyId(fields[key]);
        }
      case _ =>
    }
  }

  lemma NoEmptyRowId(data: Value, record: string)
    requires NumbersPrint(data)
    ensures "" !in RowIds(data, record)
  {
    hide ScalarIds, IsIdentifierKey;
    if data.Obj? {
      forall key | key in data.fields
        ensures "" !in ScalarIds(data.fields[key])
      {
        NoEmptyId(data.fields[key]);
      }
    }
  }

  /** The parent row holds an empty text in the field named after its record, and its id is another. */
  predicate OwnFieldIsEmpty(rows: seq<Row>, id: string, record: string) {
    id != "" && FindRow(rows, id).Some? && FindRow(rows, id).value.data.Get(DefaultField(record)) == Some(Str(""))
  }

  /** The text a new child is given for its parent is one by which the parent is known, unless it is empty. */
  lemma ParentValueIsContextId(rows: seq<Row>, id: string, record: string)
    requires forall r :: r in rows ==> NumbersPrint(r.data)
    ensures ParentValue(rows, id, record) in ContextIds(rows, id, record) <==> !OwnFieldIsEmpty(rows, id, record)
  {
    hide ScalarIds, IsIdentifierKey, NumbersPrint, RowIds;
    var row := FindRow(rows, id);
    if row.Some? {
      var data := row.value.data;
      NoEmptyRowId(data, record);
      var own := data.Get(DefaultField(record));
      if own.Some? && own.value.Str? && own.value.text != "" {
        OwnTextIsId(data, record);
      }
    }
  }

  lemma OwnTextIsId(data: Value, record: string)
    requires var own := data.Get(DefaultField(record)); own.Some? && own.value.Str? && own.value.text != ""
    ensures data.Get(DefaultField(record)).value.text in RowIds(data, record)
  {
    hide IsIdentifierKey;
    OwnFieldIdentifies(record);
    assert data.Get(DefaultField(record)).value.text in ScalarIds(data.Get(DefaultField(record)).value);
  }

  // ----- chains of linked rows -----

  /** Rows r1..rn, one for each step: r1 links to one of the start ids, every later row to the id before it. */
  ghost predicate Chain(store: Rows, path: seq<Step>, start: set<string>, rows: seq<Row>) {
    && |rows| == |path|
    && (path == [] ||
        var n := |path| - 1;
        && Chain(store, path[..n], start, rows[..n])
        && rows[n] in store(path[n].child)
        && LinksTo(rows[n], path[n].field, if n == 0 then start else {rows[n - 1].id}))
  }

  /** Some chain along the path ends in a row with this id. */
  ghost predicate ChainEndsAt(store: Rows, path: seq<Step>, start: set<string>, id: string) {
    exists rows: seq<Row> :: Chain(store, path, start, rows) && rows != [] && rows[|rows| - 1].id == id
  }

  /** One step of the join: the ids of the rows whose link field matches. */
  function NextIds(rows: seq<Row>, field: string, ids: set<string>): (next: set<string>) {
    set row | row in rows && LinksTo(row, field, ids) :: row.id
  }

  ghost function IdsAfter(store: Rows, path: seq<Step>, start: set<string>): (ids: set<string>) {
    if path == [] then start
    else
      var n := |path| - 1;
      NextIds(store(path[n].child), path[n].field, IdsAfter(store, path[..n], start))
  }

  lemma ExtendChain(store: Rows, path: seq<Step>, start: set<string>, rows: seq<Row>, row: Row)
    requires path != [] && Chain(store, path[..|path| - 1], start, rows)
    requires row in store(path[|path| - 1].child)
    requires LinksTo(row, path[|path| - 1].field, if rows == [] then start else {rows[|rows| - 1].id})
    ensures ChainEndsAt(store, path, start, row.id)
  {
    hide LinksTo;
    assert (rows + [row])[..|rows|] == rows;
    assert Chain(store, path, start, rows + [row]);
  }

  lemma {:induction false} ChainForId(store: Rows, path: seq<Step>, start: set<string>, id: string)
    requires path != [] && id in IdsAfter(store, path, start)
    ensures ChainEndsAt(store, path, start, id)
  {
    hide LinksTo;
    var n := |path| - 1;
    var before := IdsAfter(store, path[..n], start);
    var row :| row in store(path[n].child) && LinksTo(row, path[n].field, before) && row.id == id;
    if n == 0 {
      ExtendChain(store, path, start, [], row);
    } else {
      LinksToOne(row, path[n].field, before);
      var link :| link in before && LinksTo(row, path[n].field, {link});
      ChainForId(store, path[..n], start, link);
      var rows: seq<Row> :| Chain(store, path[..n], start, rows) && rows != [] && rows[|rows| - 1].id == link;
      ExtendChain(store, path, start, rows, row);
    }
  }

  lemma {:induction false} IdForChain(store: Rows, path: seq<Step>, start: set<string>, rows: seq<Row>)
    requires path != [] && Chain(store, path, start, rows)
    ensures rows[|rows| - 1].id in IdsAfter(store, path, start)
  {
    var n := |path| - 1;
    if n > 0 {
      IdForChain(store, path[..n], start, rows[..n]);
      LinksToOne(rows[n], path[n].field, IdsAfter(store, path[..n], start));
    }
  }

  /** The iterated join reaches exactly the ids at the ends of chains of linked rows. */
  lemma JoinIsChains(store: Rows, path: seq<Step>, start: set<string>)
    requires path != []
    ensures forall id :: id in IdsAfter(store, path, start) <==> ChainEndsAt(store, path, start, id)
  {
    forall id
      ensures id in IdsAfter(store, path, start) <==> ChainEndsAt(store, path, start, id)
    {
      if id in IdsAfter(store, path, start) {
        ChainForId(store, path, start, id);
      }
      if rows: seq<Row> :| Chain(store, path, start, rows) && rows != [] && rows[|rows| - 1].id == id {
        IdForChain(store, path, start, rows);
      }
    }
  }

  /** Once no id is left, none comes back: stopping there does not change the answer. */
  lemma {:induction false} EmptyStaysEmpty(store: Rows, path: seq<Step>, start: set<string>, k: nat)
    requires k <= |path| && IdsAfter(store, path[..k], start) == {}
    ensures IdsAfter(store, path, start) == {}
    decreases |path|
  {
    if k == |path| {
      TakeAll(path);
    } else {
      var n := |path| - 1;
      assert path[..n][..k] == path[..k];
      EmptyStaysEmpty(store, path[..n], start, k);
      forall row | row in store(path[n].child)
        ensures !LinksTo(row, path[n].field, {})
      {
        LinksToOne(row, path[n].field, {});
      }
    }
  }

  // ----- the filter -----

  function WithId(ids: set<string>): Row -> Option<Row> {
    (row: Row) => if row.id in ids then Some(row) else None
  }

  /** The rows whose id is among the given ones, in their order. */
  function KeepRows(rows: seq<Row>, ids: set<string>): (kept: seq<Row>) {
    Collect(rows, WithId(ids))
  }

  method JoinAlong(store: Rows, path: seq<Step>, start: set<string>) returns (ids: set<string>)
    ensures ids == IdsAfter(store, path, start)
    ensures path != [] ==> forall id :: id in ids <==> ChainEndsAt(store, path, start, id)
  {
    if path != [] {
      JoinIsChains(store, path, start);
    }
    ids := start;
    for k := 0 to |path|
      invariant ids == IdsAfter(store, path[..k], start)
    {
      TakeOneMore(path, k);
      assert path[..k + 1][..k] == path[..k];
      ids := NextIds(store(path[k].child), path[k].field, ids);
      if ids == {} {
        EmptyStaysEmpty(store, path, start, k + 1);
        return;
      }
    }
    TakeAll(path);
  }

  /**
   The rows of a target that belong to a parent: for the parent record itself the
   one row; all rows when the target is out of the parent's reach; otherwise the
   rows reached by joining along the first path.
   */
  ghost function Narrowed(g: Graph, store: Rows, rows: seq<Row>, target: string, parent: string, parentId: string): seq<Row> {
    if target == parent then KeepRows(rows, {parentId})
    else if exists path :: FirstPath(g, parent, path, target) then
      var path :| FirstPath(g, parent, path, target);
      KeepRows(rows, IdsAfter(store, path, ContextIds(store(parent), parentId, parent)))
    else rows
  }

  lemma NarrowedAlong(g: Graph, store: Rows, rows: seq<Row>, target: string, parent: string, parentId: string, path: seq<Step>)
    requires target != parent && FirstPath(g, parent, path, target)
    ensures Narrowed(g, store, rows, target, parent, parentId) ==
            KeepRows(rows, IdsAfter(store, path, ContextIds(store(parent), parentId, parent)))
  {
    hide FirstPath;
    forall other | FirstPath(g, parent, other, target)
      ensures other == path
    {
      FirstPathIsUnique(g, parent, path, other, target);
    }
  }

  lemma NarrowedOutOfReach(g: Graph, store: Rows, rows: seq<Row>, target: string, parent: string, parentId: string)
    requires target != parent && forall path :: !WalkTo(g, parent, path, target)
    ensures Narrowed(g, store, rows, target, parent, parentId) == rows
  {
    hide FirstPath, Walks;
    forall path | FirstPath(g, parent, path, target)
      ensures WalkTo(g, parent, path, target)
    {
      FirstPathIsShortest(g, parent, path, target);
    }
  }

  lemma KeptRow(rows: seq<Row>, ids: set<string>, row: Row)
    ensures row in KeepRows(rows, ids) <==> row in rows && row.id in ids
  {
    CollectMember(rows, WithId(ids), row);
    if row in rows && row.id in ids {
      var i :| 0 <= i < |rows| && rows[i] == row;
      assert WithId(ids)(rows[i]) == Some(row);
    }
  }

  lemma {:induction false} KeptCounts(rows: seq<Row>, ids: set<string>, row: Row)
    ensures multiset(KeepRows(rows, ids))[row] == if row.id in ids then multiset(rows)[row] else 0
  {
    if rows != [] {
      var before, last := rows[..|rows| - 1], rows[|rows| - 1];
      KeptCounts(before, ids, row);
      FrontAndLast(rows);
      assert WithId(ids)(last) == if last.id in ids then Some(last) else None;
    }
  }

  /**
   What belonging means: along the first path, which is a shortest one, a row
   stays exactly when a chain of linked rows leads from the parent to its id.
   */
  lemma NarrowedByChains(g: Graph, store: Rows, rows: seq<Row>, target: string, parent: string, parentId: string,
                         path: seq<Step>, row: Row)
    requires target != parent && FirstPath(g, parent, path, target)
    ensures Shortest(g, parent, path, target)
    ensures row in Narrowed(g, store, rows, target, parent, parentId) <==>
            row in rows && ChainEndsAt(store, path, ContextIds(store(parent), parentId, parent), row.id)
  {
    hide FirstPath, Walks, KeepRows, ContextIds, Narrowed, IdsAfter, Chain;
    FirstPathIsShortest(g, parent, path, target);
    NarrowedAlong(g, store, rows, target, parent, parentId, path);
    var start := ContextIds(store(parent), parentId, parent);
    KeptRow(rows, IdsAfter(store, path, start), row);
    assert path != [];
    JoinIsChains(store, path, start);
  }

  /** The loop's answer: the target itself, a target out of reach, or the join along the path found. */
  method FilterByParent(g: Graph, store: Rows, rows: seq<Row>, target: string, parent: string, parentId: string)
    returns (kept: seq<Row>)
    ensures kept == Narrowed(g, store, rows, target, parent, parentId)
    ensures target == parent ==> kept == KeepRows(rows, {parentId})
    ensures target != parent && (forall path :: !WalkTo(g, parent, path, target)) ==> kept == rows
    ensures target != parent && (exists path :: WalkTo(g, parent, path, target)) ==>
              exists path, ids ::
                && FirstPath(g, parent, path, target)
                && kept == KeepRows(rows, ids)
                && forall id :: id in ids <==>
                     ChainEndsAt(store, path, ContextIds(store(parent), parentId, parent), id)
  {
    hide FirstPath, Narrowed, ContextIds, KeepRows, Walks, IdsAfter, ChainEndsAt;
    if target == parent {
      NarrowedToItself(g, store, rows, target, parentId);
      return KeepRows(rows, {parentId});
    }
    var found := HierarchyPath(g, parent, target);
    if found.None? {
      NarrowedOutOfReach(g, store, rows, target, parent, parentId);
      return rows;
    }
    NarrowedAlong(g, store, rows, target, parent, parentId, found.value);
    var start := ContextIds(store(parent), parentId, parent);
    var ids := JoinAlong(store, found.value, start);
    FirstPathIsShortest(g, parent, found.value, target);
    kept := KeepRows(rows, ids);
  }

  lemma NarrowedToItself(g: Graph, store: Rows, rows: seq<Row>, target: string, id: string)
    ensures Narrowed(g, store, rows, target, target, id) == KeepRows(rows, {id})
  {
  }

  // ----- a child created from its parent -----

  /** A row is listed under a parent exactly when its own link, the last one of the path, leads there. */
  lemma ListedByLastLink(g: Graph, store: Rows, target: string, parent: string, parentId: string, path: seq<Step>, row: Row)
    requires target != parent && FirstPath(g, parent, path, target)
    requires row in store(target) && IdsIdentify(store(target))
    ensures path != [] && path[|path| - 1].child == target
    ensures row in Narrowed(g, store, store(target), target, parent, parentId) <==>
            LinksTo(row, path[|path| - 1].field,
                    IdsAfter(store, path[..|path| - 1], ContextIds(store(parent), parentId, parent)))
  {
    hide FirstPath, KeepRows, ContextIds, Narrowed, LinksTo;
    FirstPathIsShortest(g, parent, path, target);
    NarrowedAlong(g, store, store(target), target, parent, parentId, path);
    KeptRow(store(target), IdsAfter(store, path, ContextIds(store(parent), parentId, parent)), row);
  }

  /**
   A row one link below the parent that was given the parent's text is listed under
   the parent, exactly unless that text is empty.
   */
  lemma CreatedChildIsListed(g: Graph, store: Rows, target: string, parent: string, parentId: string, path: seq<Step>, row: Row)
    requires target != parent && FirstPath(g, parent, path, target) && |path| == 1
    requires row in store(target) && IdsIdentify(store(target))
    requires forall r :: r in store(parent) ==> NumbersPrint(r.data)
    requires row.data.Get(path[0].field) == Some(Str(ParentValue(store(parent), parentId, parent)))
    ensures row in Narrowed(g, store, store(target), target, parent, parentId) <==>
            !OwnFieldIsEmpty(store(parent), parentId, parent)
  {
    hide FirstPath, ContextIds, Narrowed, ParentValue, NumbersPrint, OwnFieldIsEmpty;
    ListedByLastLink(g, store, target, parent, parentId, path, row);
    assert path[..0] == [];
    ParentValueIsContextId(store(parent), parentId, parent);
  }

  /** A child whose link holds the digits of a numeric identifier of the parent row is listed under the parent. */
  lemma NumericIdentifierLists(g: Graph, store: Rows, target: string, parent: string, parentId: string, path: seq<Step>,
                               row: Row, key: string, digits: string, number: real)
    requires target != parent && FirstPath(g, parent, path, target) && |path| == 1 && row in store(target)
    requires FindRow(store(parent), parentId).Some? && Lower(key) == "id"
    requires FindRow(store(parent), parentId).value.data.Get(key) == Some(Num(digits, number))
    requires row.data.Get(path[0].field) == Some(Str(digits))
    ensures row in Narrowed(g, store, store(target), target, parent, parentId)
  {
    hide FirstPath, Narrowed, ContextIds, KeepRows, Lower;
    var start := ContextIds(store(parent), parentId, parent);
    IdWayFirst(Item(0), []);
    assert Identifies(FindRow(store(parent), parentId).value, parent, key, [], digits);
    ContextIdsExactly(store(parent), parentId, parent, digits);
    assert LinksTo(row, path[0].field, start);
    NarrowedAlong(g, store, store(target), target, parent, parentId, path);
    FirstPathIsShortest(g, parent, path, target);
    assert path[..0] == [];
    KeptRow(store(target), IdsAfter(store, path, start), row);
  }

  /**
   Further down, a row that was given a text in the field of the first link, and
   nothing in that of the last one, is listed exactly when the two are one field
   and the text is an id of a row one step before.
   */
  lemma CreatedDescendantIsListed(g: Graph, store: Rows, target: string, parent: string, parentId: string, path: seq<Step>,
                                  row: Row, text: string)
    requires target != parent && FirstPath(g, parent, path, target) && path != []
    requires row in store(target) && IdsIdentify(store(target))
    requires row.data.Get(path[0].field) == Some(Str(text))
    requires path[|path| - 1].field == path[0].field || row.data.Get(path[|path| - 1].field).None?
    ensures row in Narrowed(g, store, store(target), target, parent, parentId) <==>
            && path[|path| - 1].field == path[0].field
            && text in IdsAfter(store, path[..|path| - 1], ContextIds(store(parent), parentId, parent))
  {
    hide FirstPath, ContextIds, Narrowed, IdsAfter;
    ListedByLastLink(g, store, target, parent, parentId, path, row);
  }

  const HIERARCHY: Graph := [Node("Room", [ParentLink("Site", Some("site"))])]

  function EmptySite(record: string): seq<Row> {
    if record == "Site" then [Row("s", 0, Obj(map[DefaultField("Site") := Str("")]))]
    else if record == "Room" then [Row("r", 0, Obj(map["site" := Str("")]))]
    else []
  }

  lemma RoomIsBelowSite()
    ensures FirstPath(HIERARCHY, "Site", [Step("Room", "site")], "Room")
  {
    var g := HIERARCHY;
    var m := Mark(0, 0);
    assert LinkFrom(g, m, "Site");
    ExtendTrail(g, "Site", [], m);
    assert [] + [m] == [m] && [] + [Step("Room", "site")] == [Step("Room", "site")];
    forall other | Follows(g, "Site", other) && TrailEnd(g, "Site", other) == "Room"
      ensures AtMost([m], other)
    {
      assert other != [];
      if |other| == 1 {
        assert other[..0] == [] && LinkFrom(g, other[0], "Site");
        assert other == [m];
      }
    }
    assert FirstTrail(g, "Site", [m], "Room");
  }

  /** A site whose own field is empty: the room created from it refers to it by an empty text, and is not listed. */
  lemma EmptyOwnFieldHidesChild()
    ensures var room := EmptySite("Room")[0];
            && room.data.Get("site") == Some(Str(ParentValue(EmptySite("Site"), "s", "Site")))
            && room !in Narrowed(HIERARCHY, EmptySite, EmptySite("Room"), "Room", "Site", "s")
  {
    hide FirstPath, Narrowed, DefaultField;
    RoomIsBelowSite();
    var site, room := EmptySite("Site")[0], EmptySite("Room")[0];
    assert FindRow(EmptySite("Site"), "s") == Some(site);
    assert forall key :: key in site.data.fields ==> NumbersPrint(site.data.fields[key]);
    CreatedChildIsListed(HIERARCHY, EmptySite, "Room", "Site", "s", [Step("Room", "site")], room);
  }

  const DEEP_HIERARCHY: Graph :=
    [Node("Room", [ParentLink("Floor", Some("floor"))]), Node("Floor", [ParentLink("Site", Some("site"))])]

  function OneSite(record: string): seq<Row> {
    if record == "Site" then [Row("s", 0, Obj(map[]))]
    else if record == "Room" then [Row("r", 0, Obj(map["site" := Str("s")]))]
    else []
  }

  const DEEP_TRAIL: Trail := [Mark(1, 0), Mark(0, 0)]

  lemma DeepTrailIsFirst(other: Trail)
    requires Follows(DEEP_HIERARCHY, "Site", other) && TrailEnd(DEEP_HIERARCHY, "Site", other) == "Room"
    ensures AtMost(DEEP_TRAIL, other)
  {
    hide Follows, LinkFrom, Lex;
    var g := DEEP_HIERARCHY;
    assert other != [];
    var before, last := LastLink(g, "Site", other);
    assert before != [];
    if |before| == 1 {
      var none, first := LastLink(g, "Site", before);
      assert none == [];
      assert other == DEEP_TRAIL;
    }
  }

  lemma DeepTrailLeads()
    ensures var g := DEEP_HIERARCHY;
            && Follows(g, "Site", DEEP_TRAIL) && TrailEnd(g, "Site", DEEP_TRAIL) == "Room"
            && PathOf(g, "Site", DEEP_TRAIL) == [Step("Floor", "site"), Step("Room", "floor")]
  {
    var g := DEEP_HIERARCHY;
    assert LinkFrom(g, Mark(1, 0), "Site") && LinkFrom(g, Mark(0, 0), "Floor");
    assert Follows(g, "Site", []) && PathOf(g, "Site", []) == [];
    hide Follows, PathOf;
    ExtendTrail(g, "Site", [], Mark(1, 0));
    assert [] + [Mark(1, 0)] == [Mark(1, 0)];
    ExtendTrail(g, "Site", [Mark(1, 0)], Mark(0, 0));
    assert [Mark(1, 0)] + [Mark(0, 0)] == DEEP_TRAIL;
  }

  lemma RoomIsBelowFloorBelowSite()
    ensures FirstPath(DEEP_HIERARCHY, "Site", [Step("Floor", "site"), Step("Room", "floor")], "Room")
  {
    hide Follows, TrailEnd, PathOf, AtMost;
    DeepTrailLeads();
    forall other | Follows(DEEP_HIERARCHY, "Site", other) && TrailEnd(DEEP_HIERARCHY, "Site", other) == "Room"
      ensures AtMost(DEEP_TRAIL, other)
    {
      DeepTrailIsFirst(other);
    }
    assert FirstTrail(DEEP_HIERARCHY, "Site", DEEP_TRAIL, "Room");
  }

  /** A room created from a site two links above carries the site, and is not listed under it. */
  lemma FirstLinkDoesNotList()
    ensures var room := OneSite("Room")[0];
            && room.data.Get("site") == Some(Str(ParentValue(OneSite("Site"), "s", "Site")))
            && room !in Narrowed(DEEP_HIERARCHY, OneSite, OneSite("Room"), "Room", "Site", "s")
  {
    hide FirstPath, Narrowed, DefaultField;
    RoomIsBelowFloorBelowSite();
    var site, room := OneSite("Site")[0], OneSite("Room")[0];
    assert FindRow(OneSite("Site"), "s") == Some(site);
    assert RowIds(site.data, "Site") == {};
    CreatedDescendantIsListed(
      DEEP_HIERARCHY, OneSite, "Room", "Site", "s", [Step("Floor", "site"), Step("Room", "floor")], room, "s");
  }
}
