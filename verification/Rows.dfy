// Queries over a table, where a table is the sequence of its rows in insertion order.

module Rows {
  datatype Option<+T> = None | Some(value: T)

  datatype Result<+T, +E> = Ok(value: T) | Err(error: E)

  /** `query.filter(p).all()` */
  function Filter<T>(xs: seq<T>, p: T -> bool): seq<T> {
    if xs == [] then []
    else
      var front := Filter(xs[..|xs| - 1], p);
      if p(xs[|xs| - 1]) then front + [xs[|xs| - 1]] else front
  }

  lemma {:induction false} FilterMembers<T>(xs: seq<T>, p: T -> bool)
    ensures |Filter(xs, p)| <= |xs|
    ensures forall x :: x in Filter(xs, p) <==> x in xs && p(x)
  {
    if xs != [] {
      assert xs == xs[..|xs| - 1] + [xs[|xs| - 1]];
      FilterMembers(xs[..|xs| - 1], p);
    }
  }

  /** `query.filter(p).first()` */
  function FirstWhere<T>(xs: seq<T>, p: T -> bool): (r: Option<T>)
    ensures r.Some? ==> r.value in xs && p(r.value)
    ensures r.None? <==> forall x <- xs :: !p(x)
  {
    if xs == [] then None
    else if p(xs[0]) then Some(xs[0])
    else
      assert forall x <- xs :: x == xs[0] || x in xs[1..];
      FirstWhere(xs[1..], p)
  }

  /** `query.filter(p).count()` */
  function Count<T>(xs: seq<T>, p: T -> bool): nat {
    |Filter(xs, p)|
  }

  function Map<A, B>(xs: seq<A>, f: A -> B): (r: seq<B>)
    ensures |r| == |xs| && forall i | 0 <= i < |xs| :: r[i] == f(xs[i])
  {
    seq(|xs|, i requires 0 <= i < |xs| => f(xs[i]))
  }

  lemma MapAppend<A, B>(xs: seq<A>, x: A, f: A -> B)
    ensures Map(xs + [x], f) == Map(xs, f) + [f(x)]
  {
  }

  lemma FilterAppend<T>(xs: seq<T>, x: T, p: T -> bool)
    ensures Filter(xs + [x], p) == Filter(xs, p) + if p(x) then [x] else []
  {
    assert (xs + [x])[..|xs|] == xs;
  }

  /** One more row of a table, selected and then mapped. */
  lemma MapFilterNext<A, B>(xs: seq<A>, i: nat, p: A -> bool, f: A -> B)
    requires i < |xs|
    ensures Map(Filter(xs[..i + 1], p), f) == Map(Filter(xs[..i], p), f) + if p(xs[i]) then [f(xs[i])] else []
  {
    assert xs[..i + 1] == xs[..i] + [xs[i]];
    FilterAppend(xs[..i], xs[i], p);
  }

  lemma FilterAppendTwo<T>(xs: seq<T>, x: T, y: T, p: T -> bool)
    requires p(x) == p(y)
    ensures Filter(xs + [x, y], p) == Filter(xs, p) + if p(x) then [x, y] else []
  {
    assert xs + [x, y] == (xs + [x]) + [y];
    FilterAppend(xs, x, p);
    FilterAppend(xs + [x], y, p);
  }

  lemma {:induction false} FilterConcat<T>(xs: seq<T>, ys: seq<T>, p: T -> bool)
    ensures Filter(xs + ys, p) == Filter(xs, p) + Filter(ys, p)
  {
    if ys == [] {
      assert xs + ys == xs;
    } else {
      var y := ys[|ys| - 1];
      assert xs + ys == (xs + ys[..|ys| - 1]) + [y] && ys == ys[..|ys| - 1] + [y];
      FilterConcat(xs, ys[..|ys| - 1], p);
      FilterAppend(xs + ys[..|ys| - 1], y, p);
    }
  }

  lemma {:induction false} FilterNone<T>(xs: seq<T>, p: T -> bool)
    requires forall x <- xs :: !p(x)
    ensures Filter(xs, p) == []
  {
    if xs != [] {
      assert xs[|xs| - 1] in xs;
      FilterNone(xs[..|xs| - 1], p);
    }
  }

  lemma {:induction false} FilterAll<T>(xs: seq<T>, p: T -> bool)
    requires forall x <- xs :: p(x)
    ensures Filter(xs, p) == xs
  {
    if xs != [] {
      assert xs == xs[..|xs| - 1] + [xs[|xs| - 1]];
      FilterAll(xs[..|xs| - 1], p);
    }
  }

  /** Selecting after a row-wise change is changing what was selected beforehand. */
  lemma {:induction false} FilterMap<A, B>(xs: seq<A>, f: A -> B, p: B -> bool, q: A -> bool)
    requires forall x <- xs :: p(f(x)) == q(x)
    ensures Filter(Map(xs, f), p) == Map(Filter(xs, q), f)
  {
    if xs != [] {
      var front, last := xs[..|xs| - 1], xs[|xs| - 1];
      assert xs == front + [last];
      assert Map(xs, f) == Map(front, f) + [f(last)];
      FilterMap(front, f, p, q);
      FilterAppend(Map(front, f), f(last), p);
    }
  }

  lemma {:induction false} FilterCommutes<T>(xs: seq<T>, p: T -> bool, q: T -> bool)
    ensures Filter(Filter(xs, p), q) == Filter(Filter(xs, q), p)
  {
    if xs != [] {
      var front, last := xs[..|xs| - 1], xs[|xs| - 1];
      assert xs == front + [last];
      FilterCommutes(front, p, q);
      FilterAppend(Filter(front, p), last, q);
      FilterAppend(Filter(front, q), last, p);
    }
  }

  /** What one row contributes to a count can be exchanged for what its replacement contributes. */
  lemma {:induction false} CountUpdate<T>(xs: seq<T>, i: nat, y: T, p: T -> bool)
    requires i < |xs|
    ensures Count(xs[i := y], p) + (if p(xs[i]) then 1 else 0) == Count(xs, p) + (if p(y) then 1 else 0)
  {
    var a, b := xs[..i], xs[i + 1..];
    assert xs == a + [xs[i]] + b && xs[i := y] == a + [y] + b;
    FilterConcat(a + [xs[i]], b, p);
    FilterConcat(a + [y], b, p);
    FilterAppend(a, xs[i], p);
    FilterAppend(a, y, p);
  }

  /** Selecting twice, the second time more narrowly. */
  lemma {:induction false} FilterNarrows<T>(xs: seq<T>, p: T -> bool, q: T -> bool)
    requires forall x <- xs :: q(x) ==> p(x)
    ensures Filter(Filter(xs, p), q) == Filter(xs, q)
  {
    if xs != [] {
      var front, last := xs[..|xs| - 1], xs[|xs| - 1];
      assert xs == front + [last];
      FilterNarrows(front, p, q);
      FilterAppend(Filter(front, p), last, q);
    }
  }

  /** The first match comes before every other match. */
  lemma {:induction false} FirstWhereIsFirst<T>(xs: seq<T>, p: T -> bool) returns (i: nat)
    requires FirstWhere(xs, p).Some?
    ensures i < |xs| && FirstWhere(xs, p) == Some(xs[i]) && p(xs[i])
    ensures forall j | 0 <= j < i :: !p(xs[j])
  {
    if p(xs[0]) {
      i := 0;
    } else {
      var k := FirstWhereIsFirst(xs[1..], p);
      i := k + 1;
      assert forall j | 0 < j < i :: xs[j] == xs[1..][j - 1];
    }
  }

  /** Two predicates of which exactly one holds of each row split a table. */
  lemma {:induction false} CountSplit<T>(xs: seq<T>, p: T -> bool, q: T -> bool)
    requires forall x <- xs :: p(x) != q(x)
    ensures Count(xs, p) + Count(xs, q) == |xs|
  {
    if xs != [] {
      assert xs[|xs| - 1] in xs;
      CountSplit(xs[..|xs| - 1], p, q);
    }
  }

  /** The rows that satisfy one of two exclusive predicates. */
  lemma {:induction false} CountUnion<T>(xs: seq<T>, p: T -> bool, q: T -> bool, either: T -> bool)
    requires forall x <- xs :: either(x) == (p(x) || q(x)) && !(p(x) && q(x))
    ensures Count(xs, either) == Count(xs, p) + Count(xs, q)
  {
    if xs != [] {
      assert xs[|xs| - 1] in xs;
      CountUnion(xs[..|xs| - 1], p, q, either);
    }
  }

  lemma {:induction false} FirstWhereConcat<T>(xs: seq<T>, ys: seq<T>, p: T -> bool)
    ensures FirstWhere(xs + ys, p) == if FirstWhere(xs, p).Some? then FirstWhere(xs, p) else FirstWhere(ys, p)
  {
    if xs == [] {
      assert xs + ys == ys;
    } else {
      assert (xs + ys)[1..] == xs[1..] + ys;
      FirstWhereConcat(xs[1..], ys, p);
    }
  }

  lemma FirstWhereAppendTwo<T>(xs: seq<T>, x: T, y: T, p: T -> bool)
    ensures FirstWhere(xs + [x, y], p)
         == if FirstWhere(xs, p).Some? then FirstWhere(xs, p) else if p(x) then Some(x) else if p(y) then Some(y) else None
  {
    FirstWhereConcat(xs, [x, y], p);
    assert [x, y][1..] == [y];
  }

  /** A conjunctive filter can be applied in two passes. */
  lemma {:induction false} FirstWhereFiltered<T>(xs: seq<T>, p: T -> bool, q: T -> bool, both: T -> bool)
    requires forall x <- xs :: both(x) == (p(x) && q(x))
    ensures FirstWhere(Filter(xs, p), q) == FirstWhere(xs, both)
  {
    if xs != [] {
      var front, last := xs[..|xs| - 1], xs[|xs| - 1];
      assert xs == front + [last];
      FirstWhereFiltered(front, p, q, both);
      FirstWhereConcat(front, [last], both);
      FirstWhereConcat(Filter(front, p), [last], q);
    }
  }
}
