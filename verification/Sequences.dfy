/**
 Selecting, summing and comparing sequences up to reordering.
 */
module Sequences {
  import opened Json

  /** Applies a partial function to every element, keeping the hits in order. */
  function Collect<X, Y>(s: seq<X>, pick: X -> Option<Y>): (r: seq<Y>)
    ensures |r| <= |s|
  {
    if s == [] then []
    else
      var before := Collect(s[..|s| - 1], pick);
      var last := pick(s[|s| - 1]);
      if last.Some? then before + [last.value] else before
  }

  lemma {:induction false} CollectConcat<X, Y>(a: seq<X>, b: seq<X>, pick: X -> Option<Y>)
    ensures Collect(a + b, pick) == Collect(a, pick) + Collect(b, pick)
  {
    if b == [] {
      assert a + b == a;
    } else {
      var n := |b| - 1;
      assert (a + b)[..|a + b| - 1] == a + b[..n];
      CollectConcat(a, b[..n], pick);
    }
  }

  lemma {:induction false} CollectMember<X, Y>(s: seq<X>, pick: X -> Option<Y>, y: Y)
    ensures y in Collect(s, pick) <==> exists i :: 0 <= i < |s| && pick(s[i]) == Some(y)
  {
    if s != [] {
      CollectMember(s[..|s| - 1], pick, y);
      if y in Collect(s[..|s| - 1], pick) {
        var i :| 0 <= i < |s| - 1 && pick(s[..|s| - 1][i]) == Some(y);
        assert pick(s[i]) == Some(y);
      }
      if i :| 0 <= i < |s| && pick(s[i]) == Some(y) {
        if i < |s| - 1 {
          assert pick(s[..|s| - 1][i]) == Some(y);
        }
      }
    }
  }

  /** The element at `i` moved to the end, so that a sequence can be taken apart at both ends. */
  lemma SplitOut<X>(s: seq<X>, i: nat)
    requires i < |s|
    ensures s == s[..i] + [s[i]] + s[i + 1..]
    ensures multiset(s) == multiset(s[..i] + s[i + 1..]) + multiset{s[i]}
  {
    assert s == s[..i] + [s[i]] + s[i + 1..];
  }

  lemma LastOut<X>(s: seq<X>)
    requires s != []
    ensures multiset(s) == multiset(s[..|s| - 1]) + multiset{s[|s| - 1]}
  {
    assert s == s[..|s| - 1] + [s[|s| - 1]];
  }

  lemma SameLess<X>(a: multiset<X>, b: multiset<X>, x: X)
    requires a + multiset{x} == b + multiset{x}
    ensures a == b
  {
    assert a == a + multiset{x} - multiset{x};
    assert b == b + multiset{x} - multiset{x};
  }

  /** Two reorderings of one another, with a common last element removed from both. */
  lemma PeelCommon<X>(s: seq<X>, t: seq<X>) returns (i: nat)
    requires s != [] && multiset(s) == multiset(t)
    ensures i < |t| && t[i] == s[|s| - 1]
    ensures multiset(s[..|s| - 1]) == multiset(t[..i] + t[i + 1..])
  {
    var x := s[|s| - 1];
    assert x in multiset(s);
    i :| 0 <= i < |t| && t[i] == x;
    SplitOut(t, i);
    LastOut(s);
    SameLess(multiset(s[..|s| - 1]), multiset(t[..i] + t[i + 1..]), x);
  }

  /** Collecting from a reordering gives a reordering. */
  lemma {:induction false} CollectPermutation<X, Y>(s: seq<X>, t: seq<X>, pick: X -> Option<Y>)
    requires multiset(s) == multiset(t)
    ensures multiset(Collect(s, pick)) == multiset(Collect(t, pick))
    decreases |s|
  {
    if s == [] {
      assert |multiset(t)| == 0;
      assert t == [];
    } else {
      hide Collect;
      var i := PeelCommon(s, t);
      CollectPermutation(s[..|s| - 1], t[..i] + t[i + 1..], pick);
      CollectWithout(t, i, pick);
      FrontAndLast(s);
      CollectConcat(s[..|s| - 1], [s[|s| - 1]], pick);
    }
  }

  /** What one element contributes to a collection. */
  lemma CollectWithout<X, Y>(t: seq<X>, i: nat, pick: X -> Option<Y>)
    requires i < |t|
    ensures multiset(Collect(t, pick)) == multiset(Collect(t[..i] + t[i + 1..], pick)) + multiset(Collect([t[i]], pick))
  {
    hide Collect;
    var a, x, b := t[..i], t[i], t[i + 1..];
    SplitOut(t, i);
    CollectConcat(a + [x], b, pick);
    CollectConcat(a, [x], pick);
    CollectConcat(a, b, pick);
  }

  lemma RestPermutes<X>(s: seq<X>, t: seq<X>)
    requires s != [] && t != [] && s[0] == t[0] && multiset(s) == multiset(t)
    ensures multiset(s[1..]) == multiset(t[1..])
  {
    assert s == [s[0]] + s[1..] && t == [t[0]] + t[1..];
    assert multiset(s[1..]) == multiset(s) - multiset{s[0]};
  }

  lemma FrontAndLast<X>(s: seq<X>)
    requires s != []
    ensures s == s[..|s| - 1] + [s[|s| - 1]]
  {
  }

  lemma TakeOneMore<X>(s: seq<X>, i: nat)
    requires i < |s|
    ensures s[..i + 1] == s[..i] + [s[i]]
  {
  }

  lemma TakeAll<X>(s: seq<X>)
    ensures s[..|s|] == s
  {
  }

  // ----- sums -----

  function Sum(s: seq<real>): (total: real) {
    if s == [] then 0.0 else Sum(s[..|s| - 1]) + s[|s| - 1]
  }

  lemma {:induction false} SumConcat(a: seq<real>, b: seq<real>)
    ensures Sum(a + b) == Sum(a) + Sum(b)
  {
    if b == [] {
      assert a + b == a;
    } else {
      assert (a + b)[..|a + b| - 1] == a + b[..|b| - 1];
      SumConcat(a, b[..|b| - 1]);
    }
  }

  lemma {:induction false} SumPermutation(s: seq<real>, t: seq<real>)
    requires multiset(s) == multiset(t)
    ensures Sum(s) == Sum(t)
    decreases |s|
  {
    if s == [] {
      assert |multiset(t)| == 0;
      assert t == [];
    } else {
      var i := PeelCommon(s, t);
      var a, x, b := t[..i], t[i], t[i + 1..];
      SumPermutation(s[..|s| - 1], a + b);
      SplitOut(t, i);
      SumConcat(a + [x], b);
      SumConcat(a, b);
      assert (a + [x])[..|a|] == a;
    }
  }

  lemma PermutationLength<X>(s: seq<X>, t: seq<X>)
    requires multiset(s) == multiset(t)
    ensures |s| == |t|
  {
    assert |multiset(s)| == |s| && |multiset(t)| == |t|;
  }
}
