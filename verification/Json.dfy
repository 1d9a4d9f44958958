/**
 The JSON values that the runtime reads and rewrites, and the dotted paths that
 name positions inside them.

 An object is a map, so nothing here depends on the order in which its keys are
 stored. A number keeps the text that the serialiser prints for it beside the
 exact value it denotes: two numbers are equal values only when they print the
 same way, although `1` and `1.0` compare as equal numbers.
 */
module Json {

  datatype Option<+T> = None | Some(value: T)

  datatype Value =
    | Null
    | Bool(flag: bool)
    | Num(digits: string, number: real)
    | Str(text: string)
    | Arr(items: seq<Value>)
    | Obj(fields: map<string, Value>)
  {
    function Get(key: string): (v: Option<Value>)
      ensures v.Some? <==> Obj? && key in fields
    {
      if Obj? && key in fields then Some(fields[key]) else None
    }

    predicate HasText(key: string, expected: string) {
      Get(key) == Some(Str(expected))
    }
  }

  const EMPTY_OBJECT: Value := Obj(map[])

  /** Follows the keys one object at a time; absent as soon as one is missing. */
  function Walk(v: Value, keys: seq<string>): (found: Option<Value>)
    decreases |keys|
  {
    if keys == [] then Some(v)
    else if v.Get(keys[0]).None? then None
    else Walk(v.Get(keys[0]).value, keys[1..])
  }

  /** The keys and positions that lead to a value inside another. */
  datatype Turn = Key(key: string) | Item(index: nat)

  function Enter(value: Value, turn: Turn): (inner: Option<Value>)
    ensures inner.Some? ==> (value.Obj? || value.Arr?) && inner.value < value
  {
    match turn
    case Key(key) => if value.Obj? && key in value.fields then Some(value.fields[key]) else None
    case Item(index) => if value.Arr? && index < |value.items| then Some(value.items[index]) else None
  }

  function Inside(value: Value, way: seq<Turn>): Option<Value>
    decreases |way|
  {
    if way == [] then Some(value)
    else if Enter(value, way[0]).None? then None
    else Inside(Enter(value, way[0]).value, way[1..])
  }

  lemma InsideFirst(value: Value, turn: Turn, way: seq<Turn>)
    ensures Inside(value, [turn] + way) == if Enter(value, turn).Some? then Inside(Enter(value, turn).value, way) else None
  {
    assert ([turn] + way)[1..] == way;
  }

  lemma WalkOne(v: Value, key: string)
    ensures Walk(v, [key]) == v.Get(key)
  {
    assert [key][1..] == [];
  }

  // ----- dotted paths -----

  predicate DotFree(s: string) {
    '.' !in s
  }

  predicate AllDotFree(parts: seq<string>) {
    forall i :: 0 <= i < |parts| ==> DotFree(parts[i])
  }

  /** Splits at every dot; the empty text is one empty part. */
  function SplitDots(s: string): (parts: seq<string>)
    ensures |parts| >= 1 && AllDotFree(parts)
  {
    if s == "" then [""]
    else
      var rest := SplitDots(s[1..]);
      if s[0] == '.' then [""] + rest else [[s[0]] + rest[0]] + rest[1..]
  }

  function JoinDots(parts: seq<string>): (s: string)
    requires |parts| >= 1
  {
    if |parts| == 1 then parts[0] else parts[0] + "." + JoinDots(parts[1..])
  }

  lemma {:induction false} SplitDotFree(s: string)
    requires DotFree(s)
    ensures SplitDots(s) == [s]
  {
    if s != "" {
      assert s == [s[0]] + s[1..];
      SplitDotFree(s[1..]);
    }
  }

  lemma {:induction false} SplitAtDot(head: string, tail: string)
    requires DotFree(head)
    ensures SplitDots(head + "." + tail) == [head] + SplitDots(tail)
  {
    var s := head + "." + tail;
    if head == "" {
      assert s[1..] == tail;
    } else {
      assert s[1..] == head[1..] + "." + tail;
      SplitAtDot(head[1..], tail);
      assert [head[0]] + head[1..] == head;
    }
  }

  /** Splitting undoes joining for parts without dots. */
  lemma {:induction false} SplitJoin(parts: seq<string>)
    requires |parts| >= 1 && AllDotFree(parts)
    ensures SplitDots(JoinDots(parts)) == parts
  {
    if |parts| == 1 {
      SplitDotFree(parts[0]);
    } else {
      SplitJoin(parts[1..]);
      SplitAtDot(parts[0], JoinDots(parts[1..]));
    }
  }

  /** Joining undoes splitting. */
  lemma {:induction false} JoinSplit(s: string)
    ensures JoinDots(SplitDots(s)) == s
  {
    if s != "" {
      var rest := SplitDots(s[1..]);
      JoinSplit(s[1..]);
      assert s == [s[0]] + s[1..];
      if s[0] == '.' {
        assert ([""] + rest)[1..] == rest;
      } else if |rest| > 1 {
        assert ([[s[0]] + rest[0]] + rest[1..])[1..] == rest[1..];
        assert [s[0]] + rest[0] + "." + JoinDots(rest[1..]) == [s[0]] + (rest[0] + "." + JoinDots(rest[1..]));
      }
    }
  }

  lemma {:induction false} JoinConcat(a: seq<string>, b: seq<string>)
    requires |a| >= 1 && |b| >= 1
    ensures JoinDots(a + b) == JoinDots(a) + "." + JoinDots(b)
  {
    if |a| == 1 {
      assert (a + b)[1..] == b;
    } else {
      assert (a + b)[1..] == a[1..] + b;
      JoinConcat(a[1..], b);
      assert a[0] + "." + (JoinDots(a[1..]) + "." + JoinDots(b)) == a[0] + "." + JoinDots(a[1..]) + "." + JoinDots(b);
    }
  }
}
