/**
 The order of the manager's record lists: newest first, whatever order the store
 returns the rows in.
 */
module RecordList {
  import opened Json
  import opened Sequences
  import opened TextOrder
  import opened Records

  // ----- the order of rows -----

  const TIMESTAMP_FIELDS := [
    "updated_at", "updatedAt", "modified_at", "modifiedAt", "created_at", "createdAt", "submitted_at", "submittedAt",
    "_greentic_manager_created_at", "timestamp", "date"]

  function SortText(v: Value): string {
    match v
    case Str(text) => text
    case Num(digits, _) => digits
    case Bool(flag) => if flag then "true" else "false"
    case _ => ""
  }

  /** The text of the first of the fields that is present, whatever it holds. */
  function FirstPresent(data: Value, fields: seq<string>): string {
    if fields == [] then ""
    else if data.Get(fields[0]).Some? then SortText(data.Get(fields[0]).value)
    else FirstPresent(data, fields[1..])
  }

  function SortKey(row: Row): string {
    FirstPresent(row.data, TIMESTAMP_FIELDS)
  }

  /** Later timestamp first, then higher version, then higher id. */
  predicate Precedes(a: Row, b: Row) {
    || Less(SortKey(b), SortKey(a))
    || (SortKey(a) == SortKey(b) && (a.version > b.version || (a.version == b.version && Less(b.id, a.id))))
  }

  lemma PrecedesTotal(a: Row, b: Row)
    ensures Precedes(a, b) || Precedes(b, a) || a.id == b.id
    ensures !(Precedes(a, b) && Precedes(b, a))
  {
    hide Less, FirstPresent;
    LessTotal(SortKey(a), SortKey(b));
    LessTotal(a.id, b.id);
  }

  lemma PrecedesTransitive(a: Row, b: Row, c: Row)
    requires Precedes(a, b) && Precedes(b, c)
    ensures Precedes(a, c)
  {
    hide Less, FirstPresent;
    if Less(SortKey(b), SortKey(a)) && Less(SortKey(c), SortKey(b)) {
      LessTransitive(SortKey(c), SortKey(b), SortKey(a));
    }
    if Less(b.id, a.id) && Less(c.id, b.id) {
      LessTransitive(c.id, b.id, a.id);
    }
  }

  lemma NotPrecedesTransitive(a: Row, b: Row, c: Row)
    requires !Precedes(b, a) && !Precedes(c, b)
    ensures !Precedes(c, a)
  {
    hide Precedes;
    if Precedes(c, a) {
      PrecedesTotal(a, b);
      PrecedesTotal(b, c);
      if Precedes(a, b) {
        PrecedesTransitive(c, a, b);
      } else if Precedes(b, c) {
        PrecedesTransitive(b, c, a);
      } else {
        SameRank(a, b, c);
      }
    }
  }

  lemma SameRank(a: Row, b: Row, c: Row)
    requires !Precedes(a, b) && !Precedes(b, a) && !Precedes(b, c) && !Precedes(c, b)
    ensures !Precedes(c, a)
  {
    hide Less, FirstPresent;
    LessTotal(SortKey(a), SortKey(b));
    LessTotal(SortKey(b), SortKey(c));
    LessTotal(a.id, b.id);
    LessTotal(b.id, c.id);
    LessTotal(SortKey(a), SortKey(c));
    LessTotal(a.id, c.id);
  }

  ghost predicate Descending(rows: seq<Row>) {
    forall i, j :: 0 <= i < j < |rows| ==> !Precedes(rows[j], rows[i])
  }

  /** Later timestamps come first; among equal ones higher versions, and then higher ids. */
  ghost predicate NewestFirst(rows: seq<Row>) {
    forall i, j :: 0 <= i < j < |rows| ==>
      && !Less(SortKey(rows[i]), SortKey(rows[j]))
      && (SortKey(rows[i]) == SortKey(rows[j]) ==>
            && rows[i].version >= rows[j].version
            && (rows[i].version == rows[j].version ==> !Less(rows[i].id, rows[j].id)))
  }

  lemma DescendingIsNewestFirst(rows: seq<Row>)
    ensures Descending(rows) <==> NewestFirst(rows)
  {
    hide Less, SortKey;
    forall i, j | 0 <= i < j < |rows|
      ensures !Precedes(rows[j], rows[i]) <==>
              && !Less(SortKey(rows[i]), SortKey(rows[j]))
              && (SortKey(rows[i]) == SortKey(rows[j]) ==>
                    && rows[i].version >= rows[j].version
                    && (rows[i].version == rows[j].version ==> !Less(rows[i].id, rows[j].id)))
    {
    }
  }

  /** However the store orders rows with distinct ids, sorting gives one and the same list. */
  lemma {:induction false} SortIsUnique(a: seq<Row>, b: seq<Row>)
    requires Descending(a) && Descending(b) && multiset(a) == multiset(b) && IdsIdentify(a)
    ensures a == b
    decreases |a|
  {
    hide Descending, IdsIdentify;
    PermutationLength(a, b);
    if a != [] {
      SameFirst(a, b);
      RestPermutes(a, b);
      RestDescends(a);
      RestDescends(b);
      RestIdentifies(a);
      SortIsUnique(a[1..], b[1..]);
      assert a == [a[0]] + a[1..] && b == [b[0]] + b[1..];
    }
  }

  lemma RestDescends(rows: seq<Row>)
    requires Descending(rows) && rows != []
    ensures Descending(rows[1..])
  {
    hide Precedes;
  }

  lemma RestIdentifies(rows: seq<Row>)
    requires IdsIdentify(rows) && rows != []
    ensures IdsIdentify(rows[1..])
  {
    assert forall r :: r in rows[1..] ==> r in rows;
  }

  lemma SameFirst(a: seq<Row>, b: seq<Row>)
    requires Descending(a) && Descending(b) && multiset(a) == multiset(b) && IdsIdentify(a) && a != [] && b != []
    ensures a[0] == b[0]
  {
    hide Precedes;
    var x, y := a[0], b[0];
    assert x in multiset(a) && y in multiset(b);
    var i :| 0 <= i < |b| && b[i] == x;
    var j :| 0 <= j < |a| && a[j] == y;
    PrecedesTotal(x, y);
    assert i > 0 ==> !Precedes(b[i], b[0]);
    assert j > 0 ==> !Precedes(a[j], a[0]);
  }

  // ----- sorting -----

  function Insert(row: Row, rows: seq<Row>): seq<Row> {
    if rows == [] then [row]
    else if Precedes(rows[0], row) then [rows[0]] + Insert(row, rows[1..])
    else [row] + rows
  }

  function Sorted(rows: seq<Row>): seq<Row> {
    if rows == [] then [] else Insert(rows[0], Sorted(rows[1..]))
  }

  lemma {:induction false} InsertKeepsRows(row: Row, rows: seq<Row>)
    ensures multiset(Insert(row, rows)) == multiset(rows) + multiset{row}
  {
    if rows != [] {
      assert rows == [rows[0]] + rows[1..];
      if Precedes(rows[0], row) {
        InsertKeepsRows(row, rows[1..]);
      }
    }
  }

  lemma {:induction false} SortKeepsRows(rows: seq<Row>)
    ensures multiset(Sorted(rows)) == multiset(rows)
  {
    if rows != [] {
      SortKeepsRows(rows[1..]);
      InsertKeepsRows(rows[0], Sorted(rows[1..]));
      assert rows == [rows[0]] + rows[1..];
    }
  }

  lemma DescendingCons(first: Row, rows: seq<Row>)
    requires Descending(rows) && forall r :: r in rows ==> !Precedes(r, first)
    ensures Descending([first] + rows)
  {
    hide Precedes;
  }

  lemma {:induction false} InsertSorts(row: Row, rows: seq<Row>)
    requires Descending(rows)
    ensures Descending(Insert(row, rows))
  {
    hide Precedes;
    if rows == [] {
      assert Descending([row]);
    } else if Precedes(rows[0], row) {
      InsertSorts(row, rows[1..]);
      InsertKeepsRows(row, rows[1..]);
      PrecedesTotal(rows[0], row);
      forall r | r in Insert(row, rows[1..])
        ensures !Precedes(r, rows[0])
      {
        assert r in multiset(Insert(row, rows[1..]));
        assert r in multiset(rows[1..]) || r == row;
      }
      DescendingCons(rows[0], Insert(row, rows[1..]));
    } else {
      forall r | r in rows
        ensures !Precedes(r, row)
      {
        if r != rows[0] {
          assert !Precedes(r, rows[0]);
          NotPrecedesTransitive(row, rows[0], r);
        }
      }
      DescendingCons(row, rows);
    }
  }

  /** Sorting keeps all rows and puts them in descending order. */
  lemma {:induction false} SortSorts(rows: seq<Row>)
    ensures Descending(Sorted(rows)) && multiset(Sorted(rows)) == multiset(rows)
    ensures NewestFirst(Sorted(rows))
  {
    if rows != [] {
      SortSorts(rows[1..]);
      InsertSorts(rows[0], Sorted(rows[1..]));
    }
    SortKeepsRows(rows);
    DescendingIsNewestFirst(Sorted(rows));
  }

  /** The order in which the store returns rows does not show in the list. */
  lemma StoreOrderDoesNotMatter(rows: seq<Row>, others: seq<Row>)
    requires multiset(rows) == multiset(others) && IdsIdentify(rows)
    ensures Sorted(rows) == Sorted(others)
  {
    SortSorts(rows);
    SortSorts(others);
    forall r | r in Sorted(rows)
      ensures r in rows
    {
      assert r in multiset(Sorted(rows));
    }
    SortIsUnique(Sorted(rows), Sorted(others));
  }

  // ----- the timestamp of a row -----

  lemma {:induction false} FirstPresentIs(data: Value, fields: seq<string>, k: nat)
    requires k < |fields| && data.Get(fields[k]).Some? && forall j :: 0 <= j < k ==> data.Get(fields[j]).None?
    ensures FirstPresent(data, fields) == SortText(data.Get(fields[k]).value)
  {
    if k > 0 {
      FirstPresentIs(data, fields[1..], k - 1);
    }
  }

  lemma {:induction false} NothingPresent(data: Value, fields: seq<string>)
    requires forall j :: 0 <= j < |fields| ==> data.Get(fields[j]).None?
    ensures FirstPresent(data, fields) == ""
  {
    if fields != [] {
      NothingPresent(data, fields[1..]);
    }
  }

  /** The timestamp of a row is the text, number or flag under the first of these eleven names that it has. */
  lemma TimestampIs(row: Row, k: nat)
    requires k <= 11
    ensures var names := ["updated_at", "updatedAt", "modified_at", "modifiedAt", "created_at", "createdAt", "submitted_at",
                          "submittedAt", "_greentic_manager_created_at", "timestamp", "date"];
            (forall j :: 0 <= j < k ==> row.data.Get(names[j]).None?) ==>
              && (k == 11 ==> SortKey(row) == "")
              && (k < 11 && row.data.Get(names[k]).Some? ==>
                    SortKey(row) ==
                    match row.data.Get(names[k]).value
                    case Str(text) => text
                    case Num(digits, _) => digits
                    case Bool(flag) => if flag then "true" else "false"
                    case _ => "")
  {
    hide FirstPresent;
    var names := TIMESTAMP_FIELDS;
    if forall j :: 0 <= j < k ==> row.data.Get(names[j]).None? {
      if k == 11 {
        NothingPresent(row.data, names);
      } else if row.data.Get(names[k]).Some? {
        FirstPresentIs(row.data, names, k);
      }
    }
  }

  /** A row that says when it was updated is placed by that, whenever it was created. */
  lemma UpdatedOutranksCreated(row: Row, text: string)
    requires row.data.Get("updated_at") == Some(Str(text))
    ensures SortKey(row) == text
  {
    TimestampIs(row, 0);
  }
}
