/** Listing a finite set of ids in order, as the database's `ORDER BY` does. */
module SortedIds {
  import Sets

  /** Strictly decreasing. */
  predicate Decreasing(r: seq<int>)
  {
    forall i, j :: 0 <= i < j < |r| ==> r[i] > r[j]
  }

  /** Strictly increasing. */
  predicate Increasing(r: seq<int>)
  {
    forall i, j :: 0 <= i < j < |r| ==> r[i] < r[j]
  }


  lemma {:induction false} HasMax(s: set<int>)
    requires s != {}
    ensures exists m :: m in s && forall y :: y in s ==> y <= m
    decreases |s|
  {
    var x := Sets.Pick(s);
    if s != {x} {
      HasMax(s - {x});
      var m :| m in s - {x} && forall y :: y in s - {x} ==> y <= m;
      assert forall y :: y in s && y != x ==> y in s - {x};
      if x > m {
        assert forall y :: y in s ==> y <= x;
      } else {
        assert forall y :: y in s ==> y <= m;
      }
    }
  }

  lemma {:induction false} HasMin(s: set<int>)
    requires s != {}
    ensures exists m :: m in s && forall y :: y in s ==> m <= y
    decreases |s|
  {
    var x := Sets.Pick(s);
    if s != {x} {
      HasMin(s - {x});
      var m :| m in s - {x} && forall y :: y in s - {x} ==> m <= y;
      assert forall y :: y in s && y != x ==> y in s - {x};
      if x < m {
        assert forall y :: y in s ==> x <= y;
      } else {
        assert forall y :: y in s ==> m <= y;
      }
    }
  }

  function Max(s: set<int>): (m: int)
    requires s != {}
    ensures m in s && forall y :: y in s ==> y <= m
  {
    HasMax(s);
    var m :| m in s && forall y :: y in s ==> y <= m;
    m
  }

  function Min(s: set<int>): (m: int)
    requires s != {}
    ensures m in s && forall y :: y in s ==> m <= y
  {
    HasMin(s);
    var m :| m in s && forall y :: y in s ==> m <= y;
    m
  }

  /** A larger head keeps a decreasing listing decreasing. */
  lemma PrependDecreasing(m: int, rest: seq<int>)
    requires Decreasing(rest) && forall x :: x in rest ==> x < m
    ensures Decreasing([m] + rest)
  {
    var r := [m] + rest;
    forall i, j | 0 <= i < j < |r|
      ensures r[i] > r[j]
    {
      assert r[j] == rest[j - 1] && rest[j - 1] in rest;
      if i > 0 {
        assert r[i] == rest[i - 1];
      }
    }
  }

  /** A smaller head keeps an increasing listing increasing. */
  lemma PrependIncreasing(m: int, rest: seq<int>)
    requires Increasing(rest) && forall x :: x in rest ==> x > m
    ensures Increasing([m] + rest)
  {
    var r := [m] + rest;
    forall i, j | 0 <= i < j < |r|
      ensures r[i] < r[j]
    {
      assert r[j] == rest[j - 1] && rest[j - 1] in rest;
      if i > 0 {
        assert r[i] == rest[i - 1];
      }
    }
  }

  /** The ids of `s`, largest first, each once. */
  function Descending(s: set<int>): (r: seq<int>)
    ensures |r| == |s|
    ensures forall x :: x in r <==> x in s
    ensures Decreasing(r)
    decreases |s|
  {
    if s == {} then []
    else
      var m := Max(s);
      var rest := Descending(s - {m});
      PrependDecreasing(m, rest);
      [m] + rest
  }

  /** The ids of `s`, smallest first, each once. */
  function Ascending(s: set<int>): (r: seq<int>)
    ensures |r| == |s|
    ensures forall x :: x in r <==> x in s
    ensures Increasing(r)
    decreases |s|
  {
    if s == {} then []
    else
      var m := Min(s);
      var rest := Ascending(s - {m});
      PrependIncreasing(m, rest);
      [m] + rest
  }

  /** Dropping the head of a decreasing listing of `s` lists `s` without
      its largest element. */
  lemma DecreasingTail(s: set<int>, r: seq<int>)
    requires forall x :: x in r <==> x in s
    requires Decreasing(r) && r != [] && s != {}
    ensures r[0] == Max(s)
    ensures forall x :: x in r[1..] <==> x in s - {r[0]}
    ensures Decreasing(r[1..])
  {
    assert r[0] in r;
    assert Max(s) in r;
    var i :| 0 <= i < |r| && r[i] == Max(s);
    assert r[0] >= r[i];
    var rest := r[1..];
    forall x ensures x in rest <==> x in s - {r[0]} {
      if x in rest {
        var i :| 0 <= i < |rest| && rest[i] == x;
        assert r[i + 1] == x && r[0] > r[i + 1];
      }
      if x in s - {r[0]} {
        assert x in r;
        var i :| 0 <= i < |r| && r[i] == x;
        assert i != 0;
        assert rest[i - 1] == x;
      }
    }
  }

  /** The order is the only freedom: any strictly decreasing listing of `s`
      is `Descending(s)`. */
  lemma {:induction false} DescendingUnique(s: set<int>, r: seq<int>)
    requires forall x :: x in r <==> x in s
    requires Decreasing(r)
    ensures r == Descending(s)
    decreases |s|
  {
    if s != {} {
      assert r != [] by { var x := Sets.Pick(s); assert x in r; }
      DecreasingTail(s, r);
      DescendingUnique(s - {r[0]}, r[1..]);
      assert Descending(s) == [r[0]] + Descending(s - {r[0]});
      assert r == [r[0]] + r[1..];
    }
  }
}
