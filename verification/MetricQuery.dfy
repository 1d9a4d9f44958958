/**
 The store-backed metric query: equality filters are pushed down to the store,
 the answer is filtered again, records are grouped by their dimension values in
 one pass, and every group is folded into one number.
 */
module MetricQuery {
  import opened Json
  import opened Sequences
  import opened TextOrder
  import opened Aggregates

  datatype Result<+T> = Success(value: T) | Failure(code: string)

  /** Filter operators after their spelling has been normalised. */
  datatype Operator = Eq | Ne | Gt | Gte | Lt | Lte | In | Unknown

  datatype Filter = Filter(field: string, operator: Operator, value: Value)

  datatype Dimension = Dimension(name: string, field: Option<string>)

  datatype Kind = AggregateKind(aggregate: Aggregate, field: Option<string>) | FormulaKind

  datatype Metric = Metric(kind: Kind, dimensions: seq<Dimension>, filters: seq<Filter>)

  datatype Query = Query(dimensions: seq<string>, filters: seq<Filter>)

  datatype ResultRow = ResultRow(dimensions: map<string, Value>, value: real)

  type Key = seq<Value>

  /** What one query computes, once its dimensions are resolved and its filters joined. */
  datatype Plan = Plan(filters: seq<Filter>, dims: seq<Dimension>, aggregate: Aggregate, field: Option<string>)

  // ----- filters -----

  function FieldValue(data: Value, field: string): (v: Option<Value>) {
    Walk(data, SplitDots(field))
  }

  predicate BothNumbers(a: Value, b: Value) {
    a.Num? && b.Num?
  }

  predicate FilterHolds(data: Value, filter: Filter) {
    var actual := FieldValue(data, filter.field);
    actual.Some? &&
    match filter.operator
    case Eq => actual.value == filter.value
    case Ne => actual.value != filter.value
    case Gt => BothNumbers(actual.value, filter.value) && actual.value.number > filter.value.number
    case Gte => BothNumbers(actual.value, filter.value) && actual.value.number >= filter.value.number
    case Lt => BothNumbers(actual.value, filter.value) && actual.value.number < filter.value.number
    case Lte => BothNumbers(actual.value, filter.value) && actual.value.number <= filter.value.number
    case In => filter.value.Arr? && actual.value in filter.value.items
    case Unknown => false
  }

  /** What each operator decides about the value found at the field's path. */
  lemma OperatorsDecide(data: Value, field: string, bound: Value)
    ensures var found := Walk(data, SplitDots(field));
            && (found.Some? && found.value.Num? && bound.Num? ==>
                  var x, q := found.value.number, bound.number;
                  && (FilterHolds(data, Filter(field, Gt, bound)) <==> x > q)
                  && (FilterHolds(data, Filter(field, Lt, bound)) <==> x < q)
                  && (FilterHolds(data, Filter(field, Gte, bound)) <==> !FilterHolds(data, Filter(field, Lt, bound)))
                  && (FilterHolds(data, Filter(field, Lte, bound)) <==> !FilterHolds(data, Filter(field, Gt, bound))))
            && (!(found.Some? && found.value.Num? && bound.Num?) ==>
                  && !FilterHolds(data, Filter(field, Gt, bound)) && !FilterHolds(data, Filter(field, Lt, bound))
                  && !FilterHolds(data, Filter(field, Gte, bound)) && !FilterHolds(data, Filter(field, Lte, bound)))
            && (FilterHolds(data, Filter(field, Eq, bound)) <==> found == Some(bound))
            && (FilterHolds(data, Filter(field, Ne, bound)) <==> found.Some? && found.value != bound)
            && (FilterHolds(data, Filter(field, In, bound)) <==>
                  bound.Arr? && exists i :: 0 <= i < |bound.items| && found == Some(bound.items[i]))
            && !FilterHolds(data, Filter(field, Unknown, bound))
  {
    hide Walk, SplitDots;
  }

  predicate FiltersMatch(data: Value, filters: seq<Filter>) {
    forall i :: 0 <= i < |filters| ==> FilterHolds(data, filters[i])
  }

  /** The store's own reading of a pushed filter: top-level fields compared for equality. */
  predicate MatchesPushed(data: Value, pushed: map<string, Value>) {
    forall field :: field in pushed ==> data.Get(field) == Some(pushed[field])
  }

  predicate Pushable(filter: Filter) {
    filter.operator == Eq && DotFree(filter.field)
  }

  /** The value required of a field by the last pushable filter that names it. */
  function LastPushed(filters: seq<Filter>, field: string): (v: Option<Value>) {
    if filters == [] then None
    else
      var last := filters[|filters| - 1];
      if Pushable(last) && last.field == field then Some(last.value)
      else LastPushed(filters[..|filters| - 1], field)
  }

  ghost predicate IsPushedFilter(pushed: map<string, Value>, filters: seq<Filter>) {
    forall field :: (if field in pushed then Some(pushed[field]) else None) == LastPushed(filters, field)
  }

  method EqualityFilter(filters: seq<Filter>) returns (pushed: map<string, Value>)
    ensures IsPushedFilter(pushed, filters)
  {
    pushed := map[];
    for i := 0 to |filters|
      invariant IsPushedFilter(pushed, filters[..i])
    {
      var filter := filters[i];
      assert filters[..i + 1][..i] == filters[..i];
      if Pushable(filter) {
        pushed := pushed[filter.field := filter.value];
      }
    }
    assert filters[..|filters|] == filters;
  }

  lemma {:induction false} LastPushedHolds(data: Value, filters: seq<Filter>, field: string)
    requires FiltersMatch(data, filters) && LastPushed(filters, field).Some?
    ensures data.Get(field) == LastPushed(filters, field)
  {
    var n := |filters| - 1;
    var last := filters[n];
    if Pushable(last) && last.field == field {
      assert FilterHolds(data, last);
      SplitDotFree(field);
      WalkOne(data, field);
    } else {
      LastPushedHolds(data, filters[..n], field);
    }
  }

  /** An equality on a field at the top is pushed, unless a later one names the same field. */
  lemma {:induction false} EqualityIsPushed(filters: seq<Filter>, i: nat)
    requires i < |filters| && filters[i].operator == Eq && '.' !in filters[i].field
    requires forall j :: i < j < |filters| && filters[j].operator == Eq ==> filters[j].field != filters[i].field
    ensures LastPushed(filters, filters[i].field) == Some(filters[i].value)
    decreases |filters|
  {
    var n := |filters| - 1;
    if i < n {
      assert filters[..n][i] == filters[i];
      EqualityIsPushed(filters[..n], i);
    }
  }

  /** A record that passes every filter is never lost by the filter given to the store. */
  lemma PushedFilterIsWeaker(data: Value, filters: seq<Filter>, pushed: map<string, Value>)
    requires IsPushedFilter(pushed, filters) && FiltersMatch(data, filters)
    ensures MatchesPushed(data, pushed)
  {
    forall field | field in pushed
      ensures data.Get(field) == Some(pushed[field])
    {
      LastPushedHolds(data, filters, field);
    }
  }

  // ----- the store -----

  function KeepMatching(pushed: map<string, Value>): Value -> Option<Value> {
    data => if MatchesPushed(data, pushed) then Some(data) else None
  }

  /** At least the records that match the pushed filter, at most the collection, in any order. */
  ghost predicate Between(records: seq<Value>, all: seq<Value>, pushed: map<string, Value>) {
    multiset(Collect(all, KeepMatching(pushed))) <= multiset(records) <= multiset(all)
  }

  ghost predicate HonestStore(store: map<string, Value> -> Result<seq<Value>>, all: seq<Value>) {
    forall pushed :: store(pushed).Success? ==> Between(store(pushed).value, all, pushed)
  }

  lemma {:induction false} CollectMatchingCounts(s: seq<Value>, pushed: map<string, Value>, x: Value)
    ensures multiset(Collect(s, KeepMatching(pushed)))[x] == if MatchesPushed(x, pushed) then multiset(s)[x] else 0
  {
    if s != [] {
      var before, last := s[..|s| - 1], s[|s| - 1];
      CollectMatchingCounts(before, pushed, x);
      hide MatchesPushed;
      FrontAndLast(s);
      assert KeepMatching(pushed)(last) == if MatchesPushed(last, pushed) then Some(last) else None;
    }
  }

  /** A store that applies exactly the pushed filter, as the memory store does. */
  function ExactStore(all: seq<Value>): map<string, Value> -> Result<seq<Value>> {
    pushed => Success(Collect(all, KeepMatching(pushed)))
  }

  lemma ExactStoreIsHonest(all: seq<Value>)
    ensures HonestStore(ExactStore(all), all)
  {
    forall pushed
      ensures Between(ExactStore(all)(pushed).value, all, pushed)
    {
      forall x {
        CollectMatchingCounts(all, pushed, x);
      }
    }
  }

  // ----- dimensions -----

  function FindDimension(dims: seq<Dimension>, name: string): (d: Option<Dimension>)
    ensures d.Some? ==> d.value in dims && d.value.name == name
    ensures d.None? ==> forall e :: e in dims ==> e.name != name
  {
    if dims == [] then None
    else if dims[0].name == name then Some(dims[0])
    else FindDimension(dims[1..], name)
  }

  /** Of several dimensions with one name the first is meant. */
  lemma {:induction false} FirstDimension(dims: seq<Dimension>, name: string, i: nat)
    requires i < |dims| && dims[i].name == name && forall j :: 0 <= j < i ==> dims[j].name != name
    ensures FindDimension(dims, name) == Some(dims[i])
  {
    if i > 0 {
      FirstDimension(dims[1..], name, i - 1);
    }
  }

  function ResolveDimensions(dims: seq<Dimension>, names: seq<string>): (r: Result<seq<Dimension>>)
    ensures r.Success? <==> forall i :: 0 <= i < |names| ==> FindDimension(dims, names[i]).Some?
    ensures r.Success? ==>
              && |r.value| == |names|
              && forall i :: 0 <= i < |names| ==> FindDimension(dims, names[i]) == Some(r.value[i])
    ensures r.Failure? ==> r.code == "metric_dimension_unknown"
  {
    if names == [] then Success([])
    else
      var n := |names| - 1;
      var before := ResolveDimensions(dims, names[..n]);
      var last := FindDimension(dims, names[n]);
      if before.Failure? || last.None? then Failure("metric_dimension_unknown")
      else Success(before.value + [last.value])
  }

  function DimensionField(d: Dimension): string {
    if d.field.Some? then d.field.value else d.name
  }

  function DimensionValue(d: Dimension, data: Value): (v: Value) {
    var found := FieldValue(data, DimensionField(d));
    if found.Some? then found.value else Null
  }

  function KeyOf(dims: seq<Dimension>, data: Value): (key: Key)
    ensures |key| == |dims|
    ensures forall i :: 0 <= i < |dims| ==> key[i] == DimensionValue(dims[i], data)
  {
    seq(|dims|, i requires 0 <= i < |dims| => DimensionValue(dims[i], data))
  }

  /** The dimensions shown on a row: null values are left out, a repeated name is kept once. */
  function DimensionMap(dims: seq<Dimension>, key: Key): (m: map<string, Value>)
    requires |dims| == |key|
    ensures forall name :: name in m ==> exists i :: 0 <= i < |dims| && dims[i].name == name
  {
    if dims == [] then map[]
    else
      var n := |dims| - 1;
      var before := DimensionMap(dims[..n], key[..n]);
      if key[n].Null? then before else before[dims[n].name := key[n]]
  }

  /** Equal names stand for one dimension, as they do after resolution. */
  ghost predicate NamesAgree(dims: seq<Dimension>) {
    forall i, j :: 0 <= i < |dims| && 0 <= j < |dims| && dims[i].name == dims[j].name ==> dims[i] == dims[j]
  }

  /** What a map shows for a dimension whose value is `v`. */
  ghost predicate Shows(m: map<string, Value>, name: string, v: Value) {
    if v.Null? then name !in m else name in m && m[name] == v
  }

  lemma {:induction false} DimensionMapAt(dims: seq<Dimension>, key: Key, i: nat)
    requires NamesAgree(dims) && i < |dims| == |key|
    requires forall a, b :: 0 <= a < |dims| && 0 <= b < |dims| && dims[a] == dims[b] ==> key[a] == key[b]
    ensures Shows(DimensionMap(dims, key), dims[i].name, key[i])
  {
    hide DimensionMap;
    var n, name := |dims| - 1, dims[i].name;
    if dims[n].name != name {
      DimensionMapAt(dims[..n], key[..n], i);
      DimensionMapLast(dims, key);
    } else {
      assert dims[n] == dims[i];
      if j :| 0 <= j < n && dims[j].name == name {
        assert dims[j] == dims[i];
        DimensionMapAt(dims[..n], key[..n], j);
      }
      LastNamed(dims, key);
    }
  }

  lemma DimensionMapLast(dims: seq<Dimension>, key: Key)
    requires dims != [] && |dims| == |key|
    ensures var n := |dims| - 1;
            DimensionMap(dims, key) ==
            if key[n].Null? then DimensionMap(dims[..n], key[..n]) else DimensionMap(dims[..n], key[..n])[dims[n].name := key[n]]
  {
  }

  /** The last dimension is shown, when earlier ones of its name show the same. */
  lemma LastNamed(dims: seq<Dimension>, key: Key)
    requires dims != [] && |dims| == |key|
    requires var n := |dims| - 1;
             (exists j :: 0 <= j < n && dims[j].name == dims[n].name) ==>
             Shows(DimensionMap(dims[..n], key[..n]), dims[n].name, key[n])
    ensures Shows(DimensionMap(dims, key), dims[|dims| - 1].name, key[|dims| - 1])
  {
    hide DimensionMap;
    DimensionMapLast(dims, key);
  }

  /** Records with different group keys end up on rows that show different dimensions. */
  lemma RowDimensionsDiffer(dims: seq<Dimension>, a: Value, b: Value)
    requires NamesAgree(dims) && KeyOf(dims, a) != KeyOf(dims, b)
    ensures DimensionMap(dims, KeyOf(dims, a)) != DimensionMap(dims, KeyOf(dims, b))
  {
    var i :| 0 <= i < |dims| && KeyOf(dims, a)[i] != KeyOf(dims, b)[i];
    DimensionMapAt(dims, KeyOf(dims, a), i);
    DimensionMapAt(dims, KeyOf(dims, b), i);
  }

  // ----- what the rows must be -----

  function RecordValue(data: Value, field: Option<string>): (s: Sample) {
    if field.Some? then FieldValue(data, field.value) else None
  }

  /** The sample that a record gives to the group with this key, if it belongs there. */
  function GroupSample(plan: Plan, key: Key): Value -> Option<Sample> {
    data =>
      if FiltersMatch(data, plan.filters) && KeyOf(plan.dims, data) == key
      then Some(RecordValue(data, plan.field)) else None
  }

  function MatchSample(plan: Plan): Value -> Option<Sample> {
    data => if FiltersMatch(data, plan.filters) then Some(RecordValue(data, plan.field)) else None
  }

  function GroupSamples(all: seq<Value>, plan: Plan, key: Key): (samples: seq<Sample>) {
    Collect(all, GroupSample(plan, key))
  }

  /** The key of a matching record; a query without dimensions always has its one group. */
  ghost predicate IsGroupKey(key: Key, all: seq<Value>, plan: Plan) {
    || (exists data :: data in all && FiltersMatch(data, plan.filters) && KeyOf(plan.dims, data) == key)
    || (plan.dims == [] && key == [])
  }

  ghost predicate NoDuplicates<T>(s: seq<T>) {
    forall i, j :: 0 <= i < j < |s| ==> s[i] != s[j]
  }

  lemma LastIsNew<T>(s: seq<T>)
    requires NoDuplicates(s) && s != []
    ensures NoDuplicates(s[..|s| - 1]) && s[|s| - 1] !in s[..|s| - 1]
    ensures forall y :: y in s <==> y in s[..|s| - 1] || y == s[|s| - 1]
  {
    assert s == s[..|s| - 1] + [s[|s| - 1]];
  }

  /** The row of one group: its dimensions and the aggregate of its samples. */
  ghost predicate IsRow(row: ResultRow, key: Key, all: seq<Value>, plan: Plan) {
    && |key| == |plan.dims|
    && row.dimensions == DimensionMap(plan.dims, key)
    && row.value == AggregateOf(plan.aggregate, GroupSamples(all, plan, key))
  }

  /** Each row belongs to the key at the same place, and no key comes twice. */
  ghost predicate RowsFor(rows: seq<ResultRow>, keys: seq<Key>, all: seq<Value>, plan: Plan) {
    && |rows| == |keys| && NoDuplicates(keys)
    && (forall i :: 0 <= i < |keys| ==> IsRow(rows[i], keys[i], all, plan))
  }

  lemma AppendRow(rows: seq<ResultRow>, keys: seq<Key>, row: ResultRow, key: Key, all: seq<Value>, plan: Plan)
    requires RowsFor(rows, keys, all, plan) && key !in keys && IsRow(row, key, all, plan)
    ensures RowsFor(rows + [row], keys + [key], all, plan)
    ensures forall k :: k in keys + [key] <==> k in keys || k == key
  {
  }

  /**
   One row per group of the whole collection, holding the aggregate of that
   group: no push-down, no streaming.
   */
  ghost predicate RowsAnswer(rows: seq<ResultRow>, keys: seq<Key>, all: seq<Value>, plan: Plan) {
    && RowsFor(rows, keys, all, plan)
    && (forall key :: key in keys <==> IsGroupKey(key, all, plan))
  }

  /** A group key as text. */
  type Printer = Key -> string

  /** Different keys, among these, print differently. */
  ghost predicate TellsApart(show: Printer, keys: set<Key>) {
    forall a, b :: a in keys && b in keys && show(a) == show(b) ==> a == b
  }

  /** The keys of all records of a collection. */
  ghost function KeysOf(all: seq<Value>, dims: seq<Dimension>): set<Key> {
    set data | data in all :: KeyOf(dims, data)
  }

  /** Any keys can be told apart. */
  lemma {:induction false} SomePrinterTellsApart(keys: set<Key>) returns (show: Printer)
    ensures TellsApart(show, keys) && forall k :: k in keys ==> |show(k)| < |keys|
  {
    if keys == {} {
      show := k => "";
    } else {
      var key :| key in keys;
      var rest := keys - {key};
      var before := SomePrinterTellsApart(rest);
      var text := seq(|rest|, i => 'x');
      show := k => if k == key then text else before(k);
      assert forall k :: k in keys && k != key ==> k in rest && show(k) == before(k);
    }
  }

  /** Fewer records have no other keys. */
  lemma FewerKeys(show: Printer, records: seq<Value>, all: seq<Value>, dims: seq<Dimension>)
    requires TellsApart(show, KeysOf(all, dims)) && multiset(records) <= multiset(all)
    ensures TellsApart(show, KeysOf(records, dims))
  {
    forall data | data in records
      ensures data in all
    {
      assert data in multiset(records);
      assert multiset(records)[data] <= multiset(all)[data];
    }
    assert KeysOf(records, dims) <= KeysOf(all, dims);
  }

  /** The keys come in the order of their texts. */
  ghost predicate InOrder(keys: seq<Key>, show: Printer) {
    forall i, j :: 0 <= i < j < |keys| ==> Less(show(keys[i]), show(keys[j]))
  }

  ghost predicate Answers(rows: seq<ResultRow>, all: seq<Value>, plan: Plan, show: Printer) {
    exists keys :: RowsAnswer(rows, keys, all, plan) && InOrder(keys, show)
  }

  lemma LastInOrder(a: seq<Key>, b: seq<Key>, show: Printer)
    requires InOrder(a, show) && InOrder(b, show) && a != [] && b != [] && forall k :: k in a <==> k in b
    ensures a[|a| - 1] == b[|b| - 1]
  {
    hide Less;
    var x, y := a[|a| - 1], b[|b| - 1];
    assert x in a && y in b;
    var i :| 0 <= i < |b| && b[i] == x;
    var j :| 0 <= j < |a| && a[j] == y;
    LessTotal(show(x), show(y));
  }

  lemma FrontInOrder(a: seq<Key>, show: Printer, k: Key)
    requires InOrder(a, show) && a != []
    ensures InOrder(a[..|a| - 1], show)
    ensures k in a[..|a| - 1] <==> k in a && k != a[|a| - 1]
  {
    hide Less;
    var n := |a| - 1;
    if k in a[..n] {
      var i :| 0 <= i < n && a[i] == k;
      LessTotal(show(a[i]), show(a[n]));
    }
    FrontAndLast(a);
  }

  lemma BothEmpty<T>(s: seq<T>, t: seq<T>)
    requires forall x :: x in s <==> x in t
    ensures s == [] <==> t == []
  {
    assert s != [] ==> s[0] in s;
    assert t != [] ==> t[0] in t;
  }

  /** There is one order of a set of keys. */
  lemma {:induction false} OrderIsUnique(a: seq<Key>, b: seq<Key>, show: Printer)
    requires InOrder(a, show) && InOrder(b, show) && forall k :: k in a <==> k in b
    ensures a == b
    decreases |a|
  {
    hide InOrder;
    BothEmpty(a, b);
    if a != [] {
      assert a[0] in a;
      LastInOrder(a, b, show);
      var front, front' := a[..|a| - 1], b[..|b| - 1];
      FrontInOrder(a, show, a[0]);
      FrontInOrder(b, show, a[0]);
      forall k
        ensures k in front <==> k in front'
      {
        FrontInOrder(a, show, k);
        FrontInOrder(b, show, k);
      }
      OrderIsUnique(front, front', show);
      FrontAndLast(a);
      FrontAndLast(b);
    }
  }

  /** Rows that are right for a collection are right for any reordering of it. */
  lemma AnswerPermutes(rows: seq<ResultRow>, keys: seq<Key>, all: seq<Value>, other: seq<Value>, plan: Plan)
    requires RowsAnswer(rows, keys, all, plan) && multiset(all) == multiset(other)
    ensures RowsAnswer(rows, keys, other, plan)
  {
    forall data
      ensures data in all <==> data in other
    {
      assert data in all <==> data in multiset(all);
      assert data in other <==> data in multiset(other);
    }
    forall i | 0 <= i < |keys|
      ensures IsRow(rows[i], keys[i], other, plan)
    {
      hide GroupSample;
      CollectPermutation(all, other, GroupSample(plan, keys[i]));
      AggregateOrderFree(plan.aggregate, GroupSamples(all, plan, keys[i]), GroupSamples(other, plan, keys[i]));
    }
  }

  /** The rows, in their order, depend on nothing but which records the collection holds. */
  lemma AnswerIsUnique(rows: seq<ResultRow>, others: seq<ResultRow>, all: seq<Value>, other: seq<Value>, plan: Plan,
                       show: Printer)
    requires Answers(rows, all, plan, show) && Answers(others, other, plan, show) && multiset(all) == multiset(other)
    ensures rows == others
  {
    hide InOrder, IsGroupKey, GroupSamples, DimensionMap;
    var keys :| RowsAnswer(rows, keys, all, plan) && InOrder(keys, show);
    var keys' :| RowsAnswer(others, keys', other, plan) && InOrder(keys', show);
    AnswerPermutes(rows, keys, all, other, plan);
    OrderIsUnique(keys, keys', show);
    assert forall i :: 0 <= i < |keys| ==> IsRow(rows[i], keys[i], other, plan) && IsRow(others[i], keys[i], other, plan);
  }

  // ----- push-down preserves meaning -----

  lemma {:induction false} CollectThroughMatching(s: seq<Value>, plan: Plan, key: Key, pushed: map<string, Value>)
    requires IsPushedFilter(pushed, plan.filters)
    ensures GroupSamples(s, plan, key) == GroupSamples(Collect(s, KeepMatching(pushed)), plan, key)
  {
    if s != [] {
      var before, last := s[..|s| - 1], s[|s| - 1];
      CollectThroughMatching(before, plan, key, pushed);
      if FiltersMatch(last, plan.filters) {
        PushedFilterIsWeaker(last, plan.filters, pushed);
      }
      var kept := Collect(before, KeepMatching(pushed));
      assert (kept + [last])[..|kept|] == kept;
    }
  }

  lemma SameMatching(records: seq<Value>, all: seq<Value>, pushed: map<string, Value>)
    requires Between(records, all, pushed)
    ensures multiset(Collect(records, KeepMatching(pushed))) == multiset(Collect(all, KeepMatching(pushed)))
  {
    var mine, whole := multiset(Collect(records, KeepMatching(pushed))), multiset(Collect(all, KeepMatching(pushed)));
    forall x
      ensures mine[x] == whole[x]
    {
      CollectMatchingCounts(records, pushed, x);
      CollectMatchingCounts(all, pushed, x);
      assert whole[x] <= multiset(records)[x] <= multiset(all)[x];
    }
  }

  /** Every group built from the store's answer is a reordering of the same group of the whole collection. */
  lemma PushdownKeepsGroups(records: seq<Value>, all: seq<Value>, plan: Plan, pushed: map<string, Value>, key: Key)
    requires IsPushedFilter(pushed, plan.filters) && Between(records, all, pushed)
    ensures multiset(GroupSamples(records, plan, key)) == multiset(GroupSamples(all, plan, key))
  {
    SameMatching(records, all, pushed);
    CollectThroughMatching(records, plan, key, pushed);
    CollectThroughMatching(all, plan, key, pushed);
    CollectPermutation(
      Collect(records, KeepMatching(pushed)), Collect(all, KeepMatching(pushed)), GroupSample(plan, key));
  }

  lemma PushdownKeepsKeys(records: seq<Value>, all: seq<Value>, plan: Plan, pushed: map<string, Value>)
    requires IsPushedFilter(pushed, plan.filters) && Between(records, all, pushed)
    ensures forall key :: IsGroupKey(key, records, plan) <==> IsGroupKey(key, all, plan)
  {
    forall data | FiltersMatch(data, plan.filters)
      ensures data in records <==> data in all
    {
      PushedFilterIsWeaker(data, plan.filters, pushed);
      CollectMatchingCounts(all, pushed, data);
      assert data in records <==> multiset(records)[data] > 0;
      assert data in all <==> multiset(all)[data] > 0;
      assert multiset(Collect(all, KeepMatching(pushed)))[data] <= multiset(records)[data] <= multiset(all)[data];
    }
  }

  /** Rows that are right for what the store returned are right for the whole collection. */
  lemma PushdownPreservesAnswer(rows: seq<ResultRow>, keys: seq<Key>, records: seq<Value>, all: seq<Value>, plan: Plan,
                                pushed: map<string, Value>)
    requires IsPushedFilter(pushed, plan.filters) && Between(records, all, pushed)
    requires RowsAnswer(rows, keys, records, plan)
    ensures RowsAnswer(rows, keys, all, plan)
  {
    PushdownKeepsKeys(records, all, plan, pushed);
    forall i | 0 <= i < |keys|
      ensures IsRow(rows[i], keys[i], all, plan)
    {
      PushdownKeepsGroups(records, all, plan, pushed, keys[i]);
      AggregateOrderFree(plan.aggregate, GroupSamples(records, plan, keys[i]), GroupSamples(all, plan, keys[i]));
    }
  }

  // ----- the query -----

  lemma GroupStep(seen: seq<Value>, data: Value, plan: Plan, key: Key)
    ensures GroupSamples(seen + [data], plan, key) ==
            if FiltersMatch(data, plan.filters) && KeyOf(plan.dims, data) == key
            then GroupSamples(seen, plan, key) + [RecordValue(data, plan.field)] else GroupSamples(seen, plan, key)
  {
    assert (seen + [data])[..|seen|] == seen;
  }

  lemma GroupKeyNonEmpty(seen: seq<Value>, plan: Plan, key: Key)
    ensures IsGroupKey(key, seen, plan) <==> GroupSamples(seen, plan, key) != [] || (plan.dims == [] && key == [])
    ensures IsGroupKey(key, seen, plan) ==> |key| == |plan.dims|
  {
    var samples := GroupSamples(seen, plan, key);
    if samples != [] {
      CollectMember(seen, GroupSample(plan, key), samples[0]);
    }
    if data :| data in seen && FiltersMatch(data, plan.filters) && KeyOf(plan.dims, data) == key {
      CollectMember(seen, GroupSample(plan, key), RecordValue(data, plan.field));
    }
  }

  ghost predicate Tracks(state: AggregateState, samples: seq<Sample>)
    reads state
  {
    state.Valid() && state.pushed == samples
  }

  /** The states in `owned` are the groups' own: one for each key, shared by no two. */
  ghost predicate Owns(owned: set<AggregateState>, groups: map<Key, AggregateState>) {
    && (forall key :: key in groups ==> groups[key] in owned)
    && (forall a, b :: a in groups && b in groups && a != b ==> groups[a] != groups[b])
  }

  /** The non-empty groups of the records seen so far, each with its running state. */
  ghost predicate GroupsTrack(groups: map<Key, AggregateState>, seen: seq<Value>, plan: Plan, owned: set<AggregateState>)
    reads owned
  {
    && Owns(owned, groups)
    && (forall key :: key in groups <==> GroupSamples(seen, plan, key) != [])
    && (forall key :: key in groups ==> Tracks(groups[key], GroupSamples(seen, plan, key)))
  }

  /** Finds the group's state, or starts a new one, and pushes the sample. */
  method PushInto(groups: map<Key, AggregateState>, key: Key, sample: Sample, ghost owned: set<AggregateState>)
    returns (groups': map<Key, AggregateState>, ghost owned': set<AggregateState>)
    requires Owns(owned, groups) && (key in groups ==> groups[key].Valid())
    modifies owned
    ensures Owns(owned', groups') && owned <= owned' && fresh(owned' - owned)
    ensures forall k :: k in groups' <==> k in groups || k == key
    ensures Tracks(groups'[key], (if key in groups then old(groups[key].pushed) else []) + [sample])
    ensures forall k :: k in groups && k != key ==> groups'[k] == groups[k] && unchanged(groups[k])
  {
    if key in groups {
      groups', owned' := groups, owned;
      groups[key].Push(sample);
    } else {
      var state := new AggregateState();
      state.Push(sample);
      groups', owned' := groups[key := state], owned + {state};
    }
  }

  lemma KeepsTrack(groups: map<Key, AggregateState>, data: Value, plan: Plan, seen: seq<Value>, owned: set<AggregateState>)
    requires GroupsTrack(groups, seen, plan, owned) && !FiltersMatch(data, plan.filters)
    ensures GroupsTrack(groups, seen + [data], plan, owned)
  {
    forall key
      ensures GroupSamples(seen + [data], plan, key) == GroupSamples(seen, plan, key)
    {
      GroupStep(seen, data, plan, key);
    }
  }

  method AddRecord(groups: map<Key, AggregateState>, data: Value, plan: Plan, ghost seen: seq<Value>,
                   ghost owned: set<AggregateState>)
    returns (groups': map<Key, AggregateState>, ghost owned': set<AggregateState>)
    requires GroupsTrack(groups, seen, plan, owned)
    modifies owned
    ensures GroupsTrack(groups', seen + [data], plan, owned') && fresh(owned' - owned)
  {
    if !FiltersMatch(data, plan.filters) {
      KeepsTrack(groups, data, plan, seen, owned);
      return groups, owned;
    }
    var key := KeyOf(plan.dims, data);
    groups', owned' := PushInto(groups, key, RecordValue(data, plan.field), owned);
    forall k
      ensures k in groups' <==> GroupSamples(seen + [data], plan, k) != []
      ensures k in groups' ==> Tracks(groups'[k], GroupSamples(seen + [data], plan, k))
    {
      GroupStep(seen, data, plan, k);
      assert k in groups' <==> k in groups || k == key;
    }
  }

  method GroupRecords(records: seq<Value>, plan: Plan)
    returns (groups: map<Key, AggregateState>, ghost owned: set<AggregateState>)
    ensures GroupsTrack(groups, records, plan, owned) && fresh(owned)
  {
    groups, owned := map[], {};
    for i := 0 to |records|
      invariant GroupsTrack(groups, records[..i], plan, owned) && fresh(owned)
    {
      TakeOneMore(records, i);
      groups, owned := AddRecord(groups, records[i], plan, records[..i], owned);
    }
    TakeAll(records);
  }

  ghost predicate AllLess(keys: seq<Key>, rest: set<Key>, show: Printer) {
    forall a, b :: a in keys && b in rest ==> Less(show(a), show(b))
  }

  lemma SnocInOrder(keys: seq<Key>, key: Key, rest: set<Key>, show: Printer)
    requires InOrder(keys, show) && AllLess(keys, rest, show) && key in rest
    requires forall k :: k in rest && k != key ==> Less(show(key), show(k))
    ensures InOrder(keys + [key], show) && AllLess(keys + [key], rest - {key}, show)
  {
    hide Less;
  }

  lemma FirstKey(rest: set<Key>, show: Printer)
    requires rest != {} && TellsApart(show, rest)
    ensures exists key :: key in rest && forall k :: k in rest && k != key ==> Less(show(key), show(k))
  {
    hide Less;
    var one :| one in rest;
    var texts := set k | k in rest :: show(k);
    assert show(one) in texts;
    var least := HasLeast(texts);
    var key :| key in rest && show(key) == least;
  }

  /** One row for each group, in the order of the printed keys. */
  method RowsOf(groups: map<Key, AggregateState>, plan: Plan, show: Printer, ghost records: seq<Value>)
    returns (rows: seq<ResultRow>, ghost keys: seq<Key>)
    requires TellsApart(show, groups.Keys)
    requires forall key :: key in groups ==> |key| == |plan.dims| && Tracks(groups[key], GroupSamples(records, plan, key))
    ensures RowsFor(rows, keys, records, plan) && InOrder(keys, show)
    ensures forall key :: key in keys <==> key in groups
  {
    hide Less, InOrder, AllLess, TellsApart, DimensionMap;
    rows, keys := [], [];
    NothingInOrder(groups.Keys, show);
    var remaining := groups.Keys;
    while remaining != {}
      invariant remaining <= groups.Keys
      invariant RowsFor(rows, keys, records, plan)
      invariant InOrder(keys, show) && AllLess(keys, remaining, show)
      invariant forall key :: key in keys <==> key in groups.Keys - remaining
      decreases remaining
    {
      StillApart(show, groups.Keys, remaining);
      FirstKey(remaining, show);
      var key :| key in remaining && forall k :: k in remaining && k != key ==> Less(show(key), show(k));
      SnocInOrder(keys, key, remaining, show);
      var row := ResultRow(DimensionMap(plan.dims, key), groups[key].Value(plan.aggregate));
      AppendRow(rows, keys, row, key, records, plan);
      rows, keys, remaining := rows + [row], keys + [key], remaining - {key};
    }
  }

  lemma StillApart(show: Printer, keys: set<Key>, fewer: set<Key>)
    requires TellsApart(show, keys) && fewer <= keys
    ensures TellsApart(show, fewer)
  {
  }

  lemma NothingInOrder(rest: set<Key>, show: Printer)
    ensures InOrder([], show) && AllLess([], rest, show)
  {
  }

  lemma GroupsApart(show: Printer, keys: set<Key>, records: seq<Value>, plan: Plan)
    requires TellsApart(show, KeysOf(records, plan.dims))
    requires forall key :: key in keys ==> IsGroupKey(key, records, plan)
    ensures TellsApart(show, keys)
  {
    if plan.dims == [] {
      assert forall data :: KeyOf([], data) == [];
    } else {
      assert keys <= KeysOf(records, plan.dims);
    }
  }

  /** Groups and folds the records; without dimensions and without records there is one zero row. */
  method FoldGroups(records: seq<Value>, plan: Plan, show: Printer) returns (rows: seq<ResultRow>)
    requires TellsApart(show, KeysOf(records, plan.dims))
    ensures Answers(rows, records, plan, show)
  {
    var groups; ghost var owned;
    groups, owned := GroupRecords(records, plan);
    forall key {
      GroupKeyNonEmpty(records, plan, key);
    }
    if groups.Keys == {} && plan.dims == [] {
      var state := new AggregateState();
      assert [] !in groups;
      groups := map[[] := state];
    }
    GroupsApart(show, groups.Keys, records, plan);
    ghost var keys;
    rows, keys := RowsOf(groups, plan, show, records);
    assert RowsAnswer(rows, keys, records, plan);
  }

  /** The plan of a query, or the reason why it has none. */
  function MakePlan(metric: Metric, query: Query): Result<Plan> {
    if metric.kind.FormulaKind? then Failure("metric_kind_invalid")
    else
      match ResolveDimensions(metric.dimensions, query.dimensions)
      case Failure(code) => Failure(code)
      case Success(dims) => Success(Plan(metric.filters + query.filters, dims, metric.kind.aggregate, metric.kind.field))
  }

  /** A plan joins the metric's filters with the query's, and takes aggregate and field from the metric. */
  lemma PlanIs(metric: Metric, query: Query)
    requires MakePlan(metric, query).Success?
    ensures metric.kind.AggregateKind?
    ensures var plan := MakePlan(metric, query).value;
            && plan.filters == metric.filters + query.filters
            && plan.aggregate == metric.kind.aggregate && plan.field == metric.kind.field
            && |plan.dims| == |query.dimensions|
            && forall i :: 0 <= i < |query.dimensions| ==> plan.dims[i] in metric.dimensions && plan.dims[i].name == query.dimensions[i]
  {
    var dims := MakePlan(metric, query).value.dims;
    forall i | 0 <= i < |query.dimensions|
      ensures dims[i] in metric.dimensions && dims[i].name == query.dimensions[i]
    {
      assert FindDimension(metric.dimensions, query.dimensions[i]) == Some(dims[i]);
    }
  }

  /** A failing store is reported first; otherwise the rows answer the plan over the whole collection. */
  ghost predicate QueryOutcome(r: Result<seq<ResultRow>>, answer: Result<seq<Value>>, plan: Result<Plan>, all: seq<Value>,
                               show: Printer) {
    if answer.Failure? then r == Failure(answer.code)
    else if plan.Failure? then r == Failure(plan.code)
    else r.Success? && Answers(r.value, all, plan.value, show)
  }

  /** Every query over every collection can be asked, with the exact store and some printer. */
  lemma QueryCanBeAsked(metric: Metric, query: Query, all: seq<Value>)
    returns (store: map<string, Value> -> Result<seq<Value>>, show: Printer)
    ensures HonestStore(store, all)
    ensures MakePlan(metric, query).Success? ==> TellsApart(show, KeysOf(all, MakePlan(metric, query).value.dims))
  {
    ExactStoreIsHonest(all);
    store := ExactStore(all);
    var plan := MakePlan(metric, query);
    show := SomePrinterTellsApart(if plan.Success? then KeysOf(all, plan.value.dims) else {});
  }

  method QueryMetric(metric: Metric, query: Query, store: map<string, Value> -> Result<seq<Value>>, show: Printer,
                     ghost all: seq<Value>)
    returns (r: Result<seq<ResultRow>>)
    requires HonestStore(store, all)
    requires MakePlan(metric, query).Success? ==> TellsApart(show, KeysOf(all, MakePlan(metric, query).value.dims))
    ensures metric.kind.FormulaKind? ==> r == Failure("metric_kind_invalid")
    ensures metric.kind.AggregateKind? ==>
              exists pushed :: IsPushedFilter(pushed, metric.filters + query.filters) &&
                               QueryOutcome(r, store(pushed), MakePlan(metric, query), all, show)
  {
    if metric.kind.FormulaKind? {
      return Failure("metric_kind_invalid");
    }
    var filters := metric.filters + query.filters;
    var pushed := EqualityFilter(filters);
    var answer := store(pushed);
    if answer.Failure? {
      return Failure(answer.code);
    }
    var dims := ResolveDimensions(metric.dimensions, query.dimensions);
    if dims.Failure? {
      return Failure(dims.code);
    }
    var plan := Plan(filters, dims.value, metric.kind.aggregate, metric.kind.field);
    FewerKeys(show, answer.value, all, plan.dims);
    var rows := FoldGroups(answer.value, plan, show);
    ghost var keys :| RowsAnswer(rows, keys, answer.value, plan) && InOrder(keys, show);
    PushdownPreservesAnswer(rows, keys, answer.value, all, plan, pushed);
    r := Success(rows);
  }

  // ----- grouping is a partition -----

  /** The part of a group's weight that comes from one reading of its samples. */
  ghost function Weight(samples: seq<Sample>, reading: Sample -> Option<real>): real {
    Sequences.Sum(Collect(samples, reading))
  }

  ghost function GroupWeights(keys: seq<Key>, all: seq<Value>, plan: Plan, reading: Sample -> Option<real>): seq<real> {
    seq(|keys|, i requires 0 <= i < |keys| => Weight(GroupSamples(all, plan, keys[i]), reading))
  }

  ghost function SampleWeight(sample: Sample, reading: Sample -> Option<real>): real {
    if reading(sample).Some? then reading(sample).value else 0.0
  }

  lemma WeightStep(samples: seq<Sample>, sample: Sample, reading: Sample -> Option<real>)
    ensures Weight(samples + [sample], reading) == Weight(samples, reading) + SampleWeight(sample, reading)
  {
    assert (samples + [sample])[..|samples|] == samples;
    var numbers := Collect(samples, reading);
    if reading(sample).Some? {
      SumStep(numbers, reading(sample).value);
    }
  }

  lemma GroupWeightStep(all: seq<Value>, data: Value, plan: Plan, key: Key, reading: Sample -> Option<real>)
    ensures Weight(GroupSamples(all + [data], plan, key), reading) ==
            Weight(GroupSamples(all, plan, key), reading) +
            (if FiltersMatch(data, plan.filters) && KeyOf(plan.dims, data) == key
             then SampleWeight(RecordValue(data, plan.field), reading) else 0.0)
  {
    GroupStep(all, data, plan, key);
    WeightStep(GroupSamples(all, plan, key), RecordValue(data, plan.field), reading);
  }

  lemma GroupWeightsLast(keys: seq<Key>, all: seq<Value>, plan: Plan, reading: Sample -> Option<real>)
    requires keys != []
    ensures Sequences.Sum(GroupWeights(keys, all, plan, reading)) ==
            Sequences.Sum(GroupWeights(keys[..|keys| - 1], all, plan, reading)) +
            Weight(GroupSamples(all, plan, keys[|keys| - 1]), reading)
  {
    assert GroupWeights(keys, all, plan, reading)[..|keys| - 1] == GroupWeights(keys[..|keys| - 1], all, plan, reading);
  }

  /** One more record changes the weight of exactly the group it belongs to. */
  lemma {:induction false} RecordWeighsOnce(keys: seq<Key>, all: seq<Value>, data: Value, plan: Plan,
                                            reading: Sample -> Option<real>)
    requires NoDuplicates(keys)
    ensures Sequences.Sum(GroupWeights(keys, all + [data], plan, reading)) ==
            Sequences.Sum(GroupWeights(keys, all, plan, reading)) +
            (if FiltersMatch(data, plan.filters) && KeyOf(plan.dims, data) in keys
             then SampleWeight(RecordValue(data, plan.field), reading) else 0.0)
  {
    if keys != [] {
      var before, last := keys[..|keys| - 1], keys[|keys| - 1];
      LastIsNew(keys);
      RecordWeighsOnce(before, all, data, plan, reading);
      GroupWeightsLast(keys, all, plan, reading);
      GroupWeightsLast(keys, all + [data], plan, reading);
      GroupWeightStep(all, data, plan, last, reading);
    }
  }

  /** Whatever is added up per record is conserved by grouping. */
  lemma {:induction false} GroupingConserves(keys: seq<Key>, all: seq<Value>, plan: Plan, reading: Sample -> Option<real>)
    requires NoDuplicates(keys)
    requires forall data :: data in all && FiltersMatch(data, plan.filters) ==> KeyOf(plan.dims, data) in keys
    ensures Sequences.Sum(GroupWeights(keys, all, plan, reading)) == Weight(Collect(all, MatchSample(plan)), reading)
  {
    if all == [] {
      NoRecordsNoWeight(keys, plan, reading);
    } else {
      var before, last := all[..|all| - 1], all[|all| - 1];
      assert all == before + [last];
      GroupingConserves(keys, before, plan, reading);
      RecordWeighsOnce(keys, before, last, plan, reading);
      WeightStep(Collect(before, MatchSample(plan)), RecordValue(last, plan.field), reading);
    }
  }

  lemma {:induction false} NoRecordsNoWeight(keys: seq<Key>, plan: Plan, reading: Sample -> Option<real>)
    ensures Sequences.Sum(GroupWeights(keys, [], plan, reading)) == 0.0
  {
    if keys != [] {
      NoRecordsNoWeight(keys[..|keys| - 1], plan, reading);
      assert GroupWeights(keys, [], plan, reading)[..|keys| - 1] == GroupWeights(keys[..|keys| - 1], [], plan, reading);
    }
  }

  ghost function RowValues(rows: seq<ResultRow>): seq<real> {
    seq(|rows|, i requires 0 <= i < |rows| => rows[i].value)
  }

  function One(sample: Sample): Option<real> {
    Some(1.0)
  }

  lemma {:induction false} WeightOfOnes(samples: seq<Sample>)
    ensures Weight(samples, One) == |samples| as real
  {
    if samples != [] {
      WeightOfOnes(samples[..|samples| - 1]);
      assert samples == samples[..|samples| - 1] + [samples[|samples| - 1]];
      WeightStep(samples[..|samples| - 1], samples[|samples| - 1], One);
    }
  }

  /** The rows of a count metric add up to the matching records, those of a sum metric to their total. */
  lemma RowsAddUp(rows: seq<ResultRow>, keys: seq<Key>, all: seq<Value>, plan: Plan)
    requires RowsAnswer(rows, keys, all, plan) && (plan.aggregate == Count || plan.aggregate == Aggregate.Sum)
    ensures Sequences.Sum(RowValues(rows)) == AggregateOf(plan.aggregate, Collect(all, MatchSample(plan)))
  {
    var reading := if plan.aggregate == Count then One else AsNumber;
    forall data | data in all && FiltersMatch(data, plan.filters)
      ensures KeyOf(plan.dims, data) in keys
    {
      assert IsGroupKey(KeyOf(plan.dims, data), all, plan);
    }
    GroupingConserves(keys, all, plan, reading);
    WeightOfOnes(Collect(all, MatchSample(plan)));
    forall i | 0 <= i < |rows|
      ensures RowValues(rows)[i] == GroupWeights(keys, all, plan, reading)[i]
    {
      WeightOfOnes(GroupSamples(all, plan, keys[i]));
    }
    assert RowValues(rows) == GroupWeights(keys, all, plan, reading);
  }

  /** Every matching record is counted by exactly one row. */
  lemma RowsPartition(rows: seq<ResultRow>, keys: seq<Key>, all: seq<Value>, plan: Plan, data: Value)
    requires RowsAnswer(rows, keys, all, plan) && data in all && FiltersMatch(data, plan.filters)
    ensures exists i :: 0 <= i < |keys| && keys[i] == KeyOf(plan.dims, data) &&
                        GroupSample(plan, keys[i])(data) == Some(RecordValue(data, plan.field)) &&
                        forall j :: 0 <= j < |keys| && j != i ==> GroupSample(plan, keys[j])(data) == None
  {
    hide IsRow, DimensionMap, FiltersMatch, RecordValue;
    assert IsGroupKey(KeyOf(plan.dims, data), all, plan);
    var i :| 0 <= i < |keys| && keys[i] == KeyOf(plan.dims, data);
    assert forall j :: 0 <= j < |keys| && j != i ==> keys[j] != keys[i];
  }

  lemma ResolvedNamesAgree(metric: Metric, query: Query, dims: seq<Dimension>)
    requires ResolveDimensions(metric.dimensions, query.dimensions) == Success(dims)
    ensures NamesAgree(dims)
  {
    forall i, j | 0 <= i < |dims| && 0 <= j < |dims| && dims[i].name == dims[j].name
      ensures dims[i] == dims[j]
    {
      assert FindDimension(metric.dimensions, query.dimensions[i]) == Some(dims[i]);
      assert FindDimension(metric.dimensions, query.dimensions[j]) == Some(dims[j]);
    }
  }

  /** A row shows each dimension under its name with the value grouped by, unless that is null, and nothing else. */
  lemma RowShows(rows: seq<ResultRow>, keys: seq<Key>, all: seq<Value>, plan: Plan, metric: Metric, query: Query, i: nat, name: string)
    requires RowsAnswer(rows, keys, all, plan) && i < |rows|
    requires ResolveDimensions(metric.dimensions, query.dimensions) == Success(plan.dims)
    ensures |keys[i]| == |plan.dims|
    ensures name in rows[i].dimensions ==> exists d :: 0 <= d < |plan.dims| && plan.dims[d].name == name
    ensures forall d :: 0 <= d < |plan.dims| && plan.dims[d].name == name ==>
              if keys[i][d] == Null then name !in rows[i].dimensions
              else name in rows[i].dimensions && rows[i].dimensions[name] == keys[i][d]
  {
    hide DimensionMap, AggregateOf, GroupSamples, FiltersMatch, ResolveDimensions;
    assert IsRow(rows[i], keys[i], all, plan);
    assert keys[i] in keys;
    assert IsGroupKey(keys[i], all, plan);
    ResolvedNamesAgree(metric, query, plan.dims);
    if plan.dims != [] {
      var data :| data in all && KeyOf(plan.dims, data) == keys[i];
      forall d | 0 <= d < |plan.dims| && plan.dims[d].name == name
        ensures Shows(rows[i].dimensions, name, keys[i][d])
      {
        DimensionMapAt(plan.dims, keys[i], d);
      }
    }
  }

  /** No two rows show the same dimensions. */
  lemma RowsShowDifferentDimensions(rows: seq<ResultRow>, keys: seq<Key>, all: seq<Value>, plan: Plan, metric: Metric,
                                    query: Query, i: nat, j: nat)
    requires RowsAnswer(rows, keys, all, plan) && i < j < |rows|
    requires ResolveDimensions(metric.dimensions, query.dimensions) == Success(plan.dims)
    ensures rows[i].dimensions != rows[j].dimensions
  {
    hide DimensionMap, AggregateOf, GroupSamples, FiltersMatch, ResolveDimensions, KeyOf;
    assert keys[i] in keys && keys[j] in keys && keys[i] != keys[j];
    assert IsGroupKey(keys[i], all, plan) && IsGroupKey(keys[j], all, plan);
    assert IsRow(rows[i], keys[i], all, plan) && IsRow(rows[j], keys[j], all, plan);
    if plan.dims != [] {
      var a :| a in all && KeyOf(plan.dims, a) == keys[i];
      var b :| b in all && KeyOf(plan.dims, b) == keys[j];
      RowDimensionsDiffer(plan.dims, a, b);
    }
  }

  // ----- what a count counts -----

  /** How two values compare as numbers, when both are. */
  function Compared(a: Value, b: Value): Option<int> {
    if !(a.Num? && b.Num?) then None
    else if a.number < b.number then Some(-1)
    else if a.number > b.number then Some(1)
    else Some(0)
  }

  /** The meaning of an operator, by comparison. */
  predicate Accepts(operator: Operator, found: Option<Value>, bound: Value) {
    found.Some? &&
    var order := Compared(found.value, bound);
    match operator
    case Eq => found.value == bound
    case Ne => found.value != bound
    case Gt => order == Some(1)
    case Gte => order == Some(1) || order == Some(0)
    case Lt => order == Some(-1)
    case Lte => order == Some(-1) || order == Some(0)
    case In => bound.Arr? && found.value in bound.items
    case Unknown => false
  }

  /** How many records have, at every filter's path, a value that its operator accepts. */
  ghost function AcceptedRecords(all: seq<Value>, filters: seq<Filter>): nat {
    if all == [] then 0
    else
      var last := all[|all| - 1];
      AcceptedRecords(all[..|all| - 1], filters) +
      if forall f :: f in filters ==> Accepts(f.operator, Walk(last, SplitDots(f.field)), f.value) then 1 else 0
  }

  lemma MatchIsAccepted(data: Value, filters: seq<Filter>)
    ensures FiltersMatch(data, filters) <==>
            forall f :: f in filters ==> Accepts(f.operator, Walk(data, SplitDots(f.field)), f.value)
  {
    forall f: Filter
      ensures FilterHolds(data, f) <==> Accepts(f.operator, Walk(data, SplitDots(f.field)), f.value)
    {
      OperatorsDecide(data, f.field, f.value);
    }
    hide FilterHolds, Accepts;
    forall i | 0 <= i < |filters|
      ensures filters[i] in filters
    {
    }
  }

  lemma {:induction false} AcceptedAreSamples(all: seq<Value>, plan: Plan)
    requires plan.dims == []
    ensures |GroupSamples(all, plan, [])| == AcceptedRecords(all, plan.filters)
  {
    if all != [] {
      var before, last := all[..|all| - 1], all[|all| - 1];
      AcceptedAreSamples(before, plan);
      FrontAndLast(all);
      GroupStep(before, last, plan, []);
      MatchIsAccepted(last, plan.filters);
    }
  }

  /** A count without dimensions is one row: the number of records whose values the filters accept. */
  lemma CountRow(rows: seq<ResultRow>, all: seq<Value>, plan: Plan, show: Printer)
    requires Answers(rows, all, plan, show) && plan.dims == [] && plan.aggregate == Count
    ensures rows == [ResultRow(map[], AcceptedRecords(all, plan.filters) as real)]
  {
    hide GroupSamples, AcceptedRecords, InOrder, KeyOf;
    var keys :| RowsAnswer(rows, keys, all, plan) && InOrder(keys, show);
    assert IsGroupKey([], all, plan);
    forall key | key in keys
      ensures key == []
    {
      var i :| 0 <= i < |keys| && keys[i] == key;
      assert IsRow(rows[i], keys[i], all, plan);
    }
    OneKey(keys, []);
    assert IsRow(rows[0], keys[0], all, plan);
    AcceptedAreSamples(all, plan);
  }

  lemma OneKey(keys: seq<Key>, key: Key)
    requires NoDuplicates(keys) && key in keys && forall k :: k in keys ==> k == key
    ensures keys == [key]
  {
    forall i | 0 <= i < |keys|
      ensures keys[i] == key
    {
      assert keys[i] in keys;
    }
    FirstTwoDiffer(keys);
  }

  lemma FirstTwoDiffer<T>(s: seq<T>)
    requires NoDuplicates(s)
    ensures |s| >= 2 ==> s[0] != s[1]
  {
  }

  /** A record's sample is the value at the metric field's path; a metric without a field has none. */
  lemma SampleIsWalked(data: Value, field: string)
    ensures RecordValue(data, Some(field)) == Walk(data, SplitDots(field)) && RecordValue(data, None) == None
  {
  }

  /** A value grouped by is the one at the path that the dimension's field, or else its name, spells. */
  lemma KeyIsWalked(dims: seq<Dimension>, data: Value, i: nat)
    requires i < |dims|
    ensures var path := if dims[i].field.Some? then dims[i].field.value else dims[i].name;
            var found := Walk(data, SplitDots(path));
            KeyOf(dims, data)[i] == if found.Some? then found.value else Null
  {
  }
}
