/** The queries the worker makes of its ordered set of stops (a `BTreeSet<i32>`
    in the original), stated over a mathematical `set<int>`:
    `range(lo..)`, `range(..hi)` and `range(..=hi)` give the elements in a
    half-open or closed ray, and `next()` / `next_back()` give the least and
    the greatest element of such a range, if there is one. */
module OrderedSet {
  import opened Common

  /** `stops.range(lo..)` */
  function RangeFrom(s: set<int>, lo: int): (r: set<int>)
    ensures forall x :: x in r <==> x in s && lo <= x
  {
    set x | x in s && lo <= x
  }

  /** `stops.range(..hi)` */
  function RangeTo(s: set<int>, hi: int): (r: set<int>)
    ensures forall x :: x in r <==> x in s && x < hi
  {
    set x | x in s && x < hi
  }

  /** `stops.range(..=hi)` */
  function RangeToInclusive(s: set<int>, hi: int): (r: set<int>)
    ensures forall x :: x in r <==> x in s && x <= hi
  {
    set x | x in s && x <= hi
  }

  /** Some element of a non-empty set. */
  lemma PickOne(s: set<int>) returns (x: int)
    requires s != {}
    ensures x in s
  {
    if forall y :: y !in s {
      assert false;
    }
    x :| x in s;
  }

  lemma {:induction false} HasLeast(s: set<int>)
    requires s != {}
    ensures exists m :: m in s && forall y :: y in s ==> m <= y
  {
    var x := PickOne(s);
    if s != {x} {
      var rest := s - {x};
      assert forall y :: y in s ==> y == x || y in rest;
      HasLeast(rest);
      var m :| m in rest && forall y :: y in rest ==> m <= y;
      if x < m {
        assert forall y :: y in s ==> x <= y;
      } else {
        assert forall y :: y in s ==> m <= y;
      }
    }
  }

  lemma {:induction false} HasGreatest(s: set<int>)
    requires s != {}
    ensures exists m :: m in s && forall y :: y in s ==> y <= m
  {
    var x := PickOne(s);
    if s != {x} {
      var rest := s - {x};
      assert forall y :: y in s ==> y == x || y in rest;
      HasGreatest(rest);
      var m :| m in rest && forall y :: y in rest ==> y <= m;
      if m < x {
        assert forall y :: y in s ==> y <= x;
      } else {
        assert forall y :: y in s ==> y <= m;
      }
    }
  }

  /** `range.next()`: the least element, if the range is non-empty. */
  function First(s: set<int>): (r: Option<int>)
    ensures r.None? <==> s == {}
    ensures r.Some? ==> r.value in s && forall y :: y in s ==> r.value <= y
  {
    if s == {} then None
    else
      HasLeast(s);
      var m :| m in s && forall y :: y in s ==> m <= y;
      Some(m)
  }

  /** `range.next_back()`: the greatest element, if the range is non-empty. */
  function Last(s: set<int>): (r: Option<int>)
    ensures r.None? <==> s == {}
    ensures r.Some? ==> r.value in s && forall y :: y in s ==> y <= r.value
  {
    if s == {} then None
    else
      HasGreatest(s);
      var m :| m in s && forall y :: y in s ==> y <= m;
      Some(m)
  }
}
