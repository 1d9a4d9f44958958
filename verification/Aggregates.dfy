/**
 The six aggregates of a metric, as mathematics over the values of a group and
 as the streaming state that computes them one value at a time.
 */
module Aggregates {
  import opened Json
  import opened Sequences

  datatype Aggregate = Count | Sum | Avg | Min | Max | DistinctCount

  /** A record that lacks the metric's field still counts, with no value. */
  type Sample = Option<Value>

  function AsNumber(sample: Sample): (n: Option<real>) {
    if sample.Some? && sample.value.Num? then Some(sample.value.number) else None
  }

  function Numbers(samples: seq<Sample>): (numbers: seq<real>) {
    Collect(samples, AsNumber)
  }

  ghost function Present(samples: seq<Sample>): (values: set<Value>) {
    set sample | sample in samples && sample.Some? :: sample.value
  }

  ghost predicate IsLeast(m: real, numbers: seq<real>) {
    m in numbers && forall n :: n in numbers ==> m <= n
  }

  ghost predicate IsGreatest(m: real, numbers: seq<real>) {
    m in numbers && forall n :: n in numbers ==> n <= m
  }

  lemma {:induction false} BoundsExist(numbers: seq<real>)
    requires numbers != []
    ensures exists m :: IsLeast(m, numbers)
    ensures exists m :: IsGreatest(m, numbers)
  {
    var last := numbers[|numbers| - 1];
    if |numbers| == 1 {
      assert IsLeast(last, numbers) && IsGreatest(last, numbers);
    } else {
      var before := numbers[..|numbers| - 1];
      assert numbers == before + [last];
      BoundsExist(before);
      var lo :| IsLeast(lo, before);
      var hi :| IsGreatest(hi, before);
      assert IsLeast(if lo <= last then lo else last, numbers);
      assert IsGreatest(if hi >= last then hi else last, numbers);
    }
  }

  ghost function Least(numbers: seq<real>): (m: real)
    requires numbers != []
    ensures IsLeast(m, numbers)
  {
    BoundsExist(numbers);
    var m :| IsLeast(m, numbers);
    m
  }

  ghost function Greatest(numbers: seq<real>): (m: real)
    requires numbers != []
    ensures IsGreatest(m, numbers)
  {
    BoundsExist(numbers);
    var m :| IsGreatest(m, numbers);
    m
  }

  /** What each aggregate of a group means; the empty group gives zero. */
  ghost function AggregateOf(aggregate: Aggregate, samples: seq<Sample>): (r: real) {
    var numbers := Numbers(samples);
    match aggregate
    case Count => |samples| as real
    case Sum => Sequences.Sum(numbers)
    case Avg => if numbers == [] then 0.0 else Sequences.Sum(numbers) / (|numbers| as real)
    case Min => if numbers == [] then 0.0 else Least(numbers)
    case Max => if numbers == [] then 0.0 else Greatest(numbers)
    case DistinctCount => |Present(samples)| as real
  }

  /** No aggregate depends on the order in which a group's records arrive. */
  lemma AggregateOrderFree(aggregate: Aggregate, samples: seq<Sample>, reordered: seq<Sample>)
    requires multiset(samples) == multiset(reordered)
    ensures AggregateOf(aggregate, samples) == AggregateOf(aggregate, reordered)
  {
    var numbers, numbers' := Numbers(samples), Numbers(reordered);
    PermutationLength(samples, reordered);
    CollectPermutation(samples, reordered, AsNumber);
    PermutationLength(numbers, numbers');
    SumPermutation(numbers, numbers');
    assert forall n :: n in numbers <==> n in multiset(numbers);
    assert forall n :: n in numbers' <==> n in multiset(numbers');
    assert forall s :: s in samples <==> s in multiset(samples);
    assert forall s :: s in reordered <==> s in multiset(reordered);
    assert Present(samples) == Present(reordered);
  }

  lemma OneMore(x: real, k: nat)
    ensures x * ((k + 1) as real) == x * (k as real) + x
  {
    assert (k + 1) as real == (k as real) + 1.0;
  }

  lemma {:induction false} SumWithinBounds(numbers: seq<real>, lo: real, hi: real)
    requires forall i :: 0 <= i < |numbers| ==> lo <= numbers[i] <= hi
    ensures lo * (|numbers| as real) <= Sequences.Sum(numbers) <= hi * (|numbers| as real)
  {
    if numbers != [] {
      var k := |numbers| - 1;
      SumWithinBounds(numbers[..k], lo, hi);
      OneMore(lo, k);
      OneMore(hi, k);
    }
  }

  /** As soon as a group holds a number, its average lies between its extremes. */
  lemma AverageBetweenExtremes(samples: seq<Sample>)
    requires Numbers(samples) != []
    ensures AggregateOf(Min, samples) <= AggregateOf(Avg, samples) <= AggregateOf(Max, samples)
  {
    hide Numbers, Least, Greatest, Sequences.Sum;
    MeanWithinBounds(Numbers(samples));
  }

  lemma MeanWithinBounds(numbers: seq<real>)
    requires numbers != []
    ensures Least(numbers) <= Sequences.Sum(numbers) / (|numbers| as real) <= Greatest(numbers)
  {
    hide Sequences.Sum;
    forall i | 0 <= i < |numbers|
      ensures Least(numbers) <= numbers[i] <= Greatest(numbers)
    {
      assert numbers[i] in numbers;
    }
    hide Least, Greatest;
    SumWithinBounds(numbers, Least(numbers), Greatest(numbers));
    DivideBounds(Least(numbers), Sequences.Sum(numbers), Greatest(numbers), |numbers| as real);
  }

  lemma DivideBounds(lo: real, total: real, hi: real, n: real)
    requires n > 0.0 && lo * n <= total <= hi * n
    ensures lo <= total / n <= hi
  {
    var q := total / n;
    assert (q - lo) * n == total - lo * n;
    assert (hi - q) * n == hi * n - total;
  }

  lemma {:induction false} DistinctAtMostCount(samples: seq<Sample>)
    ensures AggregateOf(DistinctCount, samples) <= AggregateOf(Count, samples)
  {
    if samples == [] {
      assert Present(samples) == {};
    } else {
      var before, last := samples[..|samples| - 1], samples[|samples| - 1];
      DistinctAtMostCount(before);
      assert Present(samples) == Present(before) + (if last.Some? then {last.value} else {});
      assert |Present(samples)| <= |Present(before)| + 1;
    }
  }

  /** The extremes of the numbers seen so far, absent until there is one. */
  ghost predicate TracksExtremes(min: Option<real>, max: Option<real>, numbers: seq<real>) {
    if numbers == [] then min == None && max == None
    else min.Some? && IsLeast(min.value, numbers) && max.Some? && IsGreatest(max.value, numbers)
  }

  /** The values seen so far, each listed once. */
  ghost predicate TracksDistinct<T(!new)>(distinct: seq<T>, values: set<T>) {
    && (forall i, j :: 0 <= i < j < |distinct| ==> distinct[i] != distinct[j])
    && (forall v :: v in distinct <==> v in values)
  }

  lemma ExtremesStep(min: Option<real>, max: Option<real>, numbers: seq<real>, n: real)
    requires TracksExtremes(min, max, numbers)
    ensures TracksExtremes(Lower(min, n), Higher(max, n), numbers + [n])
  {
    assert forall x :: x in numbers + [n] <==> x in numbers || x == n;
  }

  lemma PresentStep(samples: seq<Sample>, sample: Sample)
    ensures Present(samples + [sample]) == Present(samples) + (if sample.Some? then {sample.value} else {})
  {
    assert forall s :: s in samples + [sample] <==> s in samples || s == sample;
  }

  lemma DistinctStep<T(!new)>(distinct: seq<T>, values: set<T>, value: T)
    requires TracksDistinct(distinct, values)
    ensures TracksDistinct(Insert(distinct, value), values + {value})
  {
    assert forall v :: v in distinct + [value] <==> v in distinct || v == value;
  }

  lemma NumbersStep(samples: seq<Sample>, sample: Sample)
    ensures Numbers(samples + [sample]) ==
            if AsNumber(sample).Some? then Numbers(samples) + [AsNumber(sample).value] else Numbers(samples)
  {
    assert (samples + [sample])[..|samples|] == samples;
  }

  lemma SumStep(numbers: seq<real>, n: real)
    ensures Sequences.Sum(numbers + [n]) == Sequences.Sum(numbers) + n
  {
    assert (numbers + [n])[..|numbers|] == numbers;
  }

  function Lower(min: Option<real>, n: real): Option<real> {
    Some(if min.Some? && min.value <= n then min.value else n)
  }

  function Higher(max: Option<real>, n: real): Option<real> {
    Some(if max.Some? && max.value >= n then max.value else n)
  }

  function Insert<T(==)>(distinct: seq<T>, value: T): seq<T> {
    if value in distinct then distinct else distinct + [value]
  }

  /** The numeric totals that a sequence of samples calls for. */
  ghost predicate TracksNumbers(sum: real, numericCount: nat, min: Option<real>, max: Option<real>, samples: seq<Sample>) {
    var numbers := Numbers(samples);
    sum == Sequences.Sum(numbers) && numericCount == |numbers| && TracksExtremes(min, max, numbers)
  }

  lemma TracksStep(sum: real, numericCount: nat, min: Option<real>, max: Option<real>, distinct: seq<Value>,
                   samples: seq<Sample>, sample: Sample)
    requires TracksNumbers(sum, numericCount, min, max, samples) && TracksDistinct(distinct, Present(samples))
    ensures if AsNumber(sample).Some?
            then var n := AsNumber(sample).value;
                 TracksNumbers(sum + n, numericCount + 1, Lower(min, n), Higher(max, n), samples + [sample])
            else TracksNumbers(sum, numericCount, min, max, samples + [sample])
    ensures TracksDistinct(if sample.Some? then Insert(distinct, sample.value) else distinct, Present(samples + [sample]))
  {
    NumbersStep(samples, sample);
    PresentStep(samples, sample);
    if AsNumber(sample).Some? {
      SumStep(Numbers(samples), AsNumber(sample).value);
      ExtremesStep(min, max, Numbers(samples), AsNumber(sample).value);
    }
    if sample.Some? {
      DistinctStep(distinct, Present(samples), sample.value);
    }
  }

  /** The running totals of one group. */
  class AggregateState {
    var count: nat
    var sum: real
    var numericCount: nat
    var min: Option<real>
    var max: Option<real>
    var distinct: seq<Value>
    ghost var pushed: seq<Sample>

    /** The fields are exactly what the samples pushed so far call for. */
    ghost predicate Valid()
      reads this
    {
      && count == |pushed|
      && TracksNumbers(sum, numericCount, min, max, pushed)
      && TracksDistinct(distinct, Present(pushed))
    }

    constructor ()
      ensures Valid() && pushed == []
    {
      count, sum, numericCount := 0, 0.0, 0;
      min, max, distinct := None, None, [];
      pushed := [];
    }

    method Push(sample: Sample)
      requires Valid()
      modifies this
      ensures Valid() && pushed == old(pushed) + [sample]
    {
      hide TracksNumbers, TracksDistinct, Present, Insert, Lower, Higher;
      TracksStep(sum, numericCount, min, max, distinct, pushed, sample);
      count := count + 1;
      if sample.Some? {
        distinct := Insert(distinct, sample.value);
        if sample.value.Num? {
          var number := sample.value.number;
          sum := sum + number;
          numericCount := numericCount + 1;
          min := Lower(min, number);
          max := Higher(max, number);
        }
      }
      pushed := pushed + [sample];
    }

    /** Whatever was pushed, the state answers with the aggregate of exactly those samples. */
    function Value(aggregate: Aggregate): (r: real)
      requires Valid()
      reads this
      ensures r == AggregateOf(aggregate, pushed)
    {
      match aggregate
      case Count => count as real
      case Sum => sum
      case Avg => if numericCount == 0 then 0.0 else sum / numericCount as real
      case Min => if min.Some? then min.value else 0.0
      case Max => if max.Some? then max.value else 0.0
      case DistinctCount => DistinctSize(distinct, Present(pushed)); |distinct| as real
    }
  }

  lemma DistinctSize<T(!new)>(distinct: seq<T>, values: set<T>)
    requires TracksDistinct(distinct, values)
    ensures |distinct| == |values|
  {
    DistinctLength(distinct);
    assert (set v | v in distinct) == values;
  }

  lemma {:induction false} DistinctLength<T>(s: seq<T>)
    requires forall i, j :: 0 <= i < j < |s| ==> s[i] != s[j]
    ensures |set v | v in s| == |s|
  {
    if s == [] {
      assert (set v | v in s) == {};
    } else {
      var before, last := s[..|s| - 1], s[|s| - 1];
      DistinctLength(before);
      assert (set v | v in s) == (set v | v in before) + {last};
    }
  }

  // ----- what one more sample changes -----

  lemma SumOfOneMore(samples: seq<Sample>, sample: Sample)
    ensures AggregateOf(Count, samples + [sample]) == AggregateOf(Count, samples) + 1.0
    ensures AggregateOf(Sum, samples + [sample]) ==
            AggregateOf(Sum, samples) + if sample.Some? && sample.value.Num? then sample.value.number else 0.0
    ensures AggregateOf(DistinctCount, samples + [sample]) ==
            AggregateOf(DistinctCount, samples) + if sample.Some? && sample !in samples then 1.0 else 0.0
  {
    NumbersStep(samples, sample);
    if AsNumber(sample).Some? {
      SumStep(Numbers(samples), AsNumber(sample).value);
    }
    PresentStep(samples, sample);
    if sample.Some? {
      assert sample in samples <==> sample.value in Present(samples);
    }
  }

  ghost predicate IsNumber(sample: Sample, x: real) {
    sample.Some? && sample.value.Num? && sample.value.number == x
  }

  lemma NumberIn(samples: seq<Sample>, x: real)
    ensures x in Numbers(samples) <==> exists i :: 0 <= i < |samples| && IsNumber(samples[i], x)
  {
    CollectMember(samples, AsNumber, x);
    if i :| 0 <= i < |samples| && IsNumber(samples[i], x) {
      assert AsNumber(samples[i]) == Some(x);
    }
    if i :| 0 <= i < |samples| && AsNumber(samples[i]) == Some(x) {
      assert IsNumber(samples[i], x);
    }
  }

  /** The extremes are samples that no other numeric sample lies below or above; without numbers all is zero. */
  lemma ExtremesAreSamples(samples: seq<Sample>, x: real)
    requires exists i :: 0 <= i < |samples| && IsNumber(samples[i], x)
    ensures exists i :: 0 <= i < |samples| && IsNumber(samples[i], AggregateOf(Min, samples))
    ensures exists i :: 0 <= i < |samples| && IsNumber(samples[i], AggregateOf(Max, samples))
    ensures AggregateOf(Min, samples) <= x <= AggregateOf(Max, samples)
  {
    NumberIn(samples, x);
    NumberIn(samples, AggregateOf(Min, samples));
    NumberIn(samples, AggregateOf(Max, samples));
  }

  lemma WithoutNumbersZero(samples: seq<Sample>)
    requires forall i :: 0 <= i < |samples| ==> !(samples[i].Some? && samples[i].value.Num?)
    ensures AggregateOf(Sum, samples) == AggregateOf(Avg, samples) == AggregateOf(Min, samples) == AggregateOf(Max, samples) == 0.0
  {
    if Numbers(samples) != [] {
      NumberIn(samples, Numbers(samples)[0]);
    }
  }
}
