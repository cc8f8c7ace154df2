/** Sequence helpers standing in for the SQL the backend issues: a `WHERE`
    clause is a `Filter`, `fetchone()` is `FirstIndex`, `COUNT(...)` is
    `Count`, and `ORDER BY ... ASC` is `Sort`. */
module Seqs {
  import opened Wrappers

  /** The elements of `xs` that satisfy `p`, in their original order. */
  function Filter<T>(xs: seq<T>, p: T -> bool): (r: seq<T>)
    ensures |r| <= |xs|
    ensures forall i :: 0 <= i < |r| ==> p(r[i])
  {
    if |xs| == 0 then []
    else if p(xs[0]) then [xs[0]] + Filter(xs[1..], p)
    else Filter(xs[1..], p)
  }

  /** `f` applied to every element of `xs`. */
  function Map<T, U>(f: T -> U, xs: seq<T>): (r: seq<U>)
    ensures |r| == |xs|
    ensures forall i :: 0 <= i < |xs| ==> r[i] == f(xs[i])
  {
    seq(|xs|, i requires 0 <= i < |xs| => f(xs[i]))
  }

  /** How many elements of `xs` satisfy `p`, counted independently of `Filter`. */
  function Count<T>(xs: seq<T>, p: T -> bool): (n: nat)
    ensures n <= |xs|
    ensures n == 0 <==> forall i :: 0 <= i < |xs| ==> !p(xs[i])
  {
    if |xs| == 0 then 0
    else (if p(xs[0]) then 1 else 0) + Count(xs[1..], p)
  }

  /** The index of the first element of `xs` satisfying `p`, if any. */
  function FirstIndex<T>(xs: seq<T>, p: T -> bool): (r: Option<nat>)
    ensures r.None? <==> forall i :: 0 <= i < |xs| ==> !p(xs[i])
    ensures r.Some? ==> r.value < |xs| && p(xs[r.value])
    ensures r.Some? ==> forall j :: 0 <= j < r.value ==> !p(xs[j])
  {
    if |xs| == 0 then None
    else if p(xs[0]) then Some(0)
    else match FirstIndex(xs[1..], p)
      case None => None
      case Some(i) => Some(i + 1)
  }

  /** The element at `FirstIndex`, if any. */
  function FirstWhere<T>(xs: seq<T>, p: T -> bool): (r: Option<T>)
    ensures r.None? <==> forall i :: 0 <= i < |xs| ==> !p(xs[i])
    ensures r.Some? ==> p(r.value)
  {
    match FirstIndex(xs, p)
    case None => None
    case Some(i) => Some(xs[i])
  }

  /** Python's `None if lst == [] else lst[0]`. */
  function Head<T>(xs: seq<T>): Option<T>
  {
    if |xs| == 0 then None else Some(xs[0])
  }

  /** Filtering keeps exactly the elements that satisfy the predicate, so
      its length is the independent count. */
  lemma {:induction false} FilterCount<T>(xs: seq<T>, p: T -> bool)
    ensures |Filter(xs, p)| == Count(xs, p)
  {
    if |xs| > 0 {
      FilterCount(xs[1..], p);
    }
  }

  /** An element survives the filter exactly when it is in `xs` and satisfies `p`. */
  lemma {:induction false} FilterMembership<T>(xs: seq<T>, p: T -> bool, x: T)
    ensures x in Filter(xs, p) <==> x in xs && p(x)
  {
    if |xs| > 0 {
      FilterMembership(xs[1..], p, x);
      assert xs == [xs[0]] + xs[1..];
    }
  }

  /** The head of a filtered sequence is the element at the first matching index. */
  lemma {:induction false} FilterHead<T>(xs: seq<T>, p: T -> bool)
    ensures |Filter(xs, p)| == 0 <==> FirstIndex(xs, p).None?
    ensures |Filter(xs, p)| > 0 ==> Filter(xs, p)[0] == xs[FirstIndex(xs, p).value]
  {
    if |xs| > 0 && !p(xs[0]) {
      FilterHead(xs[1..], p);
    }
  }

  /** One element that fails `p` keeps the count below the length. */
  lemma {:induction false} CountMissesOne<T>(xs: seq<T>, p: T -> bool, i: nat)
    requires i < |xs| && !p(xs[i])
    ensures Count(xs, p) < |xs|
  {
    if i > 0 {
      CountMissesOne(xs[1..], p, i - 1);
    }
  }

  /** The indices of `xs` whose elements satisfy `p`. */
  ghost function Matching<T>(xs: seq<T>, p: T -> bool): set<nat>
  {
    set i: nat | i < |xs| && p(xs[i])
  }

  /** Counting one more element adds one exactly when it matches. */
  lemma {:induction false} CountSnoc<T>(ys: seq<T>, x: T, p: T -> bool)
    ensures Count(ys + [x], p) == Count(ys, p) + (if p(x) then 1 else 0)
  {
    if |ys| > 0 {
      assert (ys + [x])[1..] == ys[1..] + [x];
      CountSnoc(ys[1..], x, p);
    }
  }

  /** `Count` is the number of matching positions. */
  lemma {:induction false} CountIsMatching<T>(xs: seq<T>, p: T -> bool)
    ensures Count(xs, p) == |Matching(xs, p)|
    decreases |xs|
  {
    if |xs| > 0 {
      var ys, x := xs[..|xs| - 1], xs[|xs| - 1];
      assert xs == ys + [x];
      CountSnoc(ys, x, p);
      CountIsMatching(ys, p);
      if p(x) {
        assert Matching(xs, p) == Matching(ys, p) + {|ys|};
      } else {
        assert Matching(xs, p) == Matching(ys, p);
      }
    }
  }

  /** `f` applied to every element of `xs` in order, stopping at the first
      failure: a Python loop whose body may raise. */
  function MapResult<T, U, E>(f: T -> Result<U, E>, xs: seq<T>): (r: Result<seq<U>, E>)
    ensures r.Failure? <==> exists i :: 0 <= i < |xs| && f(xs[i]).Failure?
    ensures r.Failure? ==>
      exists i :: 0 <= i < |xs| && f(xs[i]) == Failure(r.error) && forall j :: 0 <= j < i ==> f(xs[j]).Success?
    ensures r.Success? ==> |r.value| == |xs| && forall i :: 0 <= i < |xs| ==> f(xs[i]) == Success(r.value[i])
  {
    if |xs| == 0 then Success([])
    else match f(xs[0])
      case Failure(e) => Failure(e)
      case Success(y) =>
        match MapResult(f, xs[1..])
        case Failure(e) =>
          ghost var i :| 0 <= i < |xs[1..]| && f(xs[1..][i]) == Failure(e)
            && forall j :: 0 <= j < i ==> f(xs[1..][j]).Success?;
          assert f(xs[i + 1]) == Failure(e);
          Failure(e)
        case Success(ys) => Success([y] + ys)
  }

  /** What a loop over `SELECT ... WHERE p(row)` returns when no row makes
      it raise: an output exactly for each matching row. */
  lemma MapResultFilterMembership<T, U, E>(xs: seq<T>, p: T -> bool, f: T -> Result<U, E>, y: U)
    requires MapResult(f, Filter(xs, p)).Success?
    ensures y in MapResult(f, Filter(xs, p)).value <==> exists i :: 0 <= i < |xs| && p(xs[i]) && f(xs[i]) == Success(y)
  {
    if y in MapResult(f, Filter(xs, p)).value {
      OutputHasRow(xs, p, f, y);
    } else {
      forall i | 0 <= i < |xs| && p(xs[i])
        ensures f(xs[i]) != Success(y)
      {
        RowHasOutput(xs, p, f, i);
      }
    }
  }

  lemma OutputHasRow<T, U, E>(xs: seq<T>, p: T -> bool, f: T -> Result<U, E>, y: U)
    requires MapResult(f, Filter(xs, p)).Success?
    requires y in MapResult(f, Filter(xs, p)).value
    ensures exists i :: 0 <= i < |xs| && p(xs[i]) && f(xs[i]) == Success(y)
  {
    var out := MapResult(f, Filter(xs, p)).value;
    var k :| 0 <= k < |out| && out[k] == y;
    var i := FilterOrigin(xs, p, k);
    assert f(Filter(xs, p)[k]) == Success(out[k]);
  }

  lemma RowHasOutput<T, U, E>(xs: seq<T>, p: T -> bool, f: T -> Result<U, E>, i: nat)
    requires MapResult(f, Filter(xs, p)).Success?
    requires i < |xs| && p(xs[i])
    ensures f(xs[i]).Success? && f(xs[i]).value in MapResult(f, Filter(xs, p)).value
  {
    var out := MapResult(f, Filter(xs, p)).value;
    var k := FilterPosition(xs, p, i);
    assert f(Filter(xs, p)[k]) == Success(out[k]);
  }

  /** The rows selected by `p` whose loop body yields `y`. */
  ghost function RowsYielding<T, U, E>(xs: seq<T>, p: T -> bool, f: T -> Result<U, E>, y: U): set<nat>
  {
    set i: nat | i < |xs| && p(xs[i]) && f(xs[i]) == Success(y)
  }

  /** Each value occurs in `out` exactly as often as the rows selected by
      `p` that `f` turns into it. */
  ghost predicate OnePerRow<T, U(!new), E>(out: seq<U>, xs: seq<T>, p: T -> bool, f: T -> Result<U, E>)
  {
    forall y :: multiset(out)[y] == |RowsYielding(xs, p, f, y)|
  }

  ghost function Yields<T, U, E>(p: T -> bool, f: T -> Result<U, E>, y: U): T -> bool
  {
    x => p(x) && f(x) == Success(y)
  }

  /** When such a loop finishes, each output occurs once per selected row
      that yields it: the loop neither merges nor repeats rows. */
  lemma MapResultFilterMultiplicity<T, U, E>(xs: seq<T>, p: T -> bool, f: T -> Result<U, E>, y: U)
    requires MapResult(f, Filter(xs, p)).Success?
    ensures multiset(MapResult(f, Filter(xs, p)).value)[y] == |RowsYielding(xs, p, f, y)|
  {
    CountYields(xs, p, f, y);
    CountIsMatching(xs, Yields(p, f, y));
    assert Matching(xs, Yields(p, f, y)) == RowsYielding(xs, p, f, y);
  }

  lemma {:induction false} CountYields<T, U, E>(xs: seq<T>, p: T -> bool, f: T -> Result<U, E>, y: U)
    requires MapResult(f, Filter(xs, p)).Success?
    ensures multiset(MapResult(f, Filter(xs, p)).value)[y] == Count(xs, Yields(p, f, y))
    decreases |xs|
  {
    if |xs| > 0 {
      var rest := Filter(xs[1..], p);
      if p(xs[0]) {
        var ys := Filter(xs, p);
        assert ys == [xs[0]] + rest && ys[1..] == rest;
        var out := MapResult(f, ys).value;
        assert MapResult(f, rest).Success? && out == [f(xs[0]).value] + MapResult(f, rest).value;
        CountYields(xs[1..], p, f, y);
      } else {
        CountYields(xs[1..], p, f, y);
      }
    }
  }

  /** Where a matching element lands in the filtered sequence. */
  lemma {:induction false} FilterPosition<T>(xs: seq<T>, p: T -> bool, i: nat) returns (k: nat)
    requires i < |xs| && p(xs[i])
    ensures k < |Filter(xs, p)| && Filter(xs, p)[k] == xs[i]
  {
    if i == 0 {
      k := 0;
    } else {
      var k' := FilterPosition(xs[1..], p, i - 1);
      k := if p(xs[0]) then k' + 1 else k';
    }
  }

  /** Where an element of the filtered sequence came from. */
  lemma {:induction false} FilterOrigin<T>(xs: seq<T>, p: T -> bool, k: nat) returns (i: nat)
    requires k < |Filter(xs, p)|
    ensures i < |xs| && xs[i] == Filter(xs, p)[k] && p(xs[i])
  {
    if p(xs[0]) && k == 0 {
      i := 0;
    } else {
      var i' := FilterOrigin(xs[1..], p, if p(xs[0]) then k - 1 else k);
      i := i' + 1;
    }
  }

  /** Such a loop raises exactly when some matching row makes it raise. */
  lemma MapResultFilterFails<T, U, E>(xs: seq<T>, p: T -> bool, f: T -> Result<U, E>)
    ensures MapResult(f, Filter(xs, p)).Failure? <==> exists i :: 0 <= i < |xs| && p(xs[i]) && f(xs[i]).Failure?
  {
    var ys := Filter(xs, p);
    if MapResult(f, ys).Failure? {
      var k :| 0 <= k < |ys| && f(ys[k]).Failure?;
      FilterMembership(xs, p, ys[k]);
    }
    if exists i :: 0 <= i < |xs| && p(xs[i]) && f(xs[i]).Failure? {
      var i :| 0 <= i < |xs| && p(xs[i]) && f(xs[i]).Failure?;
      FilterMembership(xs, p, xs[i]);
      var k :| 0 <= k < |ys| && ys[k] == xs[i];
    }
  }

  /** The first output of such a loop is the output of the first matching row. */
  lemma MapResultFilterHead<T, U, E>(xs: seq<T>, p: T -> bool, f: T -> Result<U, E>)
    requires MapResult(f, Filter(xs, p)).Success?
    ensures Head(MapResult(f, Filter(xs, p)).value).None? <==> FirstIndex(xs, p).None?
    ensures Head(MapResult(f, Filter(xs, p)).value).Some? ==>
      f(xs[FirstIndex(xs, p).value]) == Success(Head(MapResult(f, Filter(xs, p)).value).value)
  {
    FilterHead(xs, p);
  }

  predicate Sorted(xs: seq<nat>)
  {
    forall i, j :: 0 <= i < j < |xs| ==> xs[i] <= xs[j]
  }

  /** Inserts `x` into an ascending sequence, keeping it ascending. */
  function Insert(x: nat, xs: seq<nat>): (r: seq<nat>)
    requires Sorted(xs)
    ensures Sorted(r)
    ensures multiset(r) == multiset(xs) + multiset{x}
    ensures |r| > 0 && (r[0] == x || (|xs| > 0 && r[0] == xs[0]))
  {
    if |xs| == 0 then [x]
    else if x <= xs[0] then [x] + xs
    else
      var rest := Insert(x, xs[1..]);
      assert xs == [xs[0]] + xs[1..];
      assert xs[0] <= rest[0];
      [xs[0]] + rest
  }

  /** An ascending permutation of `xs`: the model of `ORDER BY ... ASC`. */
  function Sort(xs: seq<nat>): (r: seq<nat>)
    ensures Sorted(r)
    ensures multiset(r) == multiset(xs)
  {
    if |xs| == 0 then []
    else
      assert xs == [xs[0]] + xs[1..];
      Insert(xs[0], Sort(xs[1..]))
  }
}
