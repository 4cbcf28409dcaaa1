/** Facts about finite sets and maps that several components need. */
module Sets {

  lemma Pick<T>(s: set<T>) returns (x: T)
    requires s != {}
    ensures x in s
  {
    x :| x in s;
  }

  lemma PickOutside<T>(a: set<T>, b: set<T>) returns (x: T)
    requires !(a <= b)
    ensures x in a && x !in b
  {
    x :| x in a && x !in b;
  }

  lemma SubsetSize<T>(a: set<T>, b: set<T>)
    requires a <= b
    ensures |a| <= |b|
    ensures a != b ==> |a| < |b|
  {
    if a != {} {
      var x :| x in a;
      SubsetSize(a - {x}, b - {x});
    }
  }

  lemma SameMap<K, V>(m: map<K, V>, m': map<K, V>)
    requires m.Keys == m'.Keys
    requires forall k :: k in m.Keys ==> m[k] == m'[k]
    ensures m == m'
  {
  }

  ghost predicate IsLeast(s: set<int>, x: int) {
    x in s && forall y :: y in s ==> x <= y
  }

  lemma LeastExists(s: set<int>) returns (x: int)
    requires s != {}
    ensures IsLeast(s, x)
  {
    var y := Pick(s);
    if s == {y} {
      x := y;
    } else {
      var z := LeastExists(s - {y});
      x := if z <= y then z else y;
      forall w | w in s
        ensures x <= w
      {
        assert w == y || w in s - {y};
      }
    }
  }

  /** The least element of a nonempty set. */
  ghost function Least(s: set<int>): (x: int)
    requires s != {}
    ensures IsLeast(s, x)
  {
    assert exists x :: IsLeast(s, x) by {
      var x := LeastExists(s);
    }
    var x :| IsLeast(s, x);
    x
  }
}
