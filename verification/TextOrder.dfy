/**
 Texts in the order of their characters.
 */
module TextOrder {

  predicate Less(a: string, b: string) {
    b != "" && (a == "" || a[0] < b[0] || (a[0] == b[0] && Less(a[1..], b[1..])))
  }

  lemma {:induction false} LessTotal(a: string, b: string)
    ensures Less(a, b) || a == b || Less(b, a)
    ensures !(Less(a, b) && Less(b, a)) && (a == b ==> !Less(a, b))
  {
    if a != "" && b != "" && a[0] == b[0] {
      LessTotal(a[1..], b[1..]);
      assert a == [a[0]] + a[1..] && b == [b[0]] + b[1..];
    }
  }

  lemma {:induction false} LessTransitive(a: string, b: string, c: string)
    requires Less(a, b) && Less(b, c)
    ensures Less(a, c)
  {
    if a != "" && a[0] == b[0] && b[0] == c[0] {
      LessTransitive(a[1..], b[1..], c[1..]);
    }
  }

  ghost predicate IsLeast(ids: set<string>, least: string) {
    least in ids && forall id :: id in ids ==> id == least || Less(least, id)
  }

  /** Every set of texts that is not empty has a least one. */
  lemma {:induction false} HasLeast(ids: set<string>) returns (least: string)
    requires ids != {}
    ensures IsLeast(ids, least)
    decreases |ids|
  {
    hide Less;
    var one :| one in ids;
    var rest := ids - {one};
    assert forall id :: id in ids ==> id in rest || id == one;
    if rest == {} {
      least := one;
    } else {
      least := HasLeast(rest);
      LessTotal(one, least);
      if Less(one, least) {
        forall id | id in rest && id != least {
          LessTransitive(one, least, id);
        }
        least := one;
      }
    }
  }

  lemma LeastExists(ids: set<string>)
    requires ids != {}
    ensures exists least :: IsLeast(ids, least)
  {
    var least := HasLeast(ids);
  }

  ghost function Least(ids: set<string>): (least: string)
    requires ids != {}
    ensures IsLeast(ids, least)
  {
    LeastExists(ids);
    var least :| IsLeast(ids, least);
    least
  }

  lemma LeastIsUnique(ids: set<string>, least: string)
    requires IsLeast(ids, least)
    ensures least == Least(ids)
  {
    hide Less;
    LessTotal(least, Least(ids));
  }

  method FindLeast(ids: set<string>) returns (least: string)
    requires ids != {}
    ensures least == Least(ids)
  {
    hide Less;
    least :| least in ids;
    var rest := ids - {least};
    while rest != {}
      invariant rest <= ids && least in ids
      invariant forall id :: id in ids && id !in rest ==> id == least || Less(least, id)
    {
      var id :| id in rest;
      if Less(id, least) {
        forall other | other in ids && other !in rest && other != least {
          LessTransitive(id, least, other);
        }
        least := id;
      } else {
        LessTotal(id, least);
      }
      rest := rest - {id};
    }
    LeastIsUnique(ids, least);
  }

  ghost predicate TextsAscend(s: seq<string>) {
    forall i, j :: 0 <= i < j < |s| ==> Less(s[i], s[j])
  }

  /** A set of texts, least first. */
  ghost function InTextOrder(ids: set<string>): (s: seq<string>)
    ensures forall id :: id in s <==> id in ids
    decreases |ids|
  {
    if ids == {} then []
    else
      var rest := InTextOrder(ids - {Least(ids)});
      assert forall id :: id in ids <==> id == Least(ids) || id in rest;
      [Least(ids)] + rest
  }

  lemma LeastFirst(ids: set<string>)
    requires ids != {}
    ensures InTextOrder(ids) == [Least(ids)] + InTextOrder(ids - {Least(ids)})
  {
  }

  lemma {:induction false} InTextOrderAscends(ids: set<string>)
    ensures TextsAscend(InTextOrder(ids))
    decreases |ids|
  {
    hide Less;
    if ids != {} {
      var rest := InTextOrder(ids - {Least(ids)});
      InTextOrderAscends(ids - {Least(ids)});
      forall i | 0 <= i < |rest|
        ensures Less(Least(ids), rest[i])
      {
        assert rest[i] in rest;
      }
    }
  }

  /** A text comes before every longer one that starts with it. */
  lemma {:induction false} LessExtended(a: string, more: string)
    requires more != ""
    ensures Less(a, a + more)
  {
    if a != "" {
      assert (a + more)[1..] == a[1..] + more;
      LessExtended(a[1..], more);
    }
  }

  /** The first character in which two texts differ decides. */
  lemma {:induction false} FirstDifferenceDecides(common: string, x: char, y: char, a: string, b: string)
    requires x != y
    ensures Less(common + [x] + a, common + [y] + b) <==> x < y
  {
    var s, t := common + [x] + a, common + [y] + b;
    if common != "" {
      assert s[1..] == common[1..] + [x] + a && t[1..] == common[1..] + [y] + b;
      FirstDifferenceDecides(common[1..], x, y, a, b);
    }
  }
}
