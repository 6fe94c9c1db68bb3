/**
  `find_edges`: probing a trained tree along the diagonal. Both coordinate lists are
  sorted in place; the values they share (`set(X) & set(Y)`, sorted) are the diagonal
  points `(d, d)`; each is classified, and the first and the last point classified
  `False` give the corners of the region.
 */
module Edges {
  import opened Outcomes
  import opened Values
  import opened Trees
  import opened Classification

  predicate Sorted(s: seq<int>)
  {
    forall i, j :: 0 <= i < j < |s| ==> s[i] <= s[j]
  }

  predicate Increasing(s: seq<int>)
  {
    forall i, j :: 0 <= i < j < |s| ==> s[i] < s[j]
  }

  /** `X.sort()`: the list is sorted in place (insertion sort). */
  method SortInPlace(a: array<int>)
    modifies a
    ensures Sorted(a[..])
    ensures multiset(a[..]) == old(multiset(a[..]))
  {
    for i := 0 to a.Length
      invariant Sorted(a[..i])
      invariant multiset(a[..]) == old(multiset(a[..]))
    {
      Insert(a, i);
    }
    assert a[..a.Length] == a[..];
  }

  /** Moves `a[i]` left into the sorted prefix `a[..i]`. */
  method Insert(a: array<int>, i: nat)
    requires i < a.Length && Sorted(a[..i])
    modifies a
    ensures Sorted(a[..i + 1])
    ensures a[i + 1..] == old(a[i + 1..])
    ensures multiset(a[..]) == old(multiset(a[..]))
  {
    var j := i;
    while j > 0 && a[j - 1] > a[j]
      invariant 0 <= j <= i
      invariant forall p, q :: 0 <= p < q <= i && q != j ==> a[p] <= a[q]
      invariant a[i + 1..] == old(a[i + 1..])
      invariant multiset(a[..]) == old(multiset(a[..]))
      decreases j
    {
      Swap(a, j - 1, j);
      j := j - 1;
    }
  }

  method Swap(a: array<int>, p: nat, q: nat)
    requires p < q < a.Length
    modifies a
    ensures a[..] == old(a[..])[p := old(a[q])][q := old(a[p])]
    ensures multiset(a[..]) == old(multiset(a[..]))
  {
    a[p], a[q] := a[q], a[p];
  }

  /**
    `sorted(set(X) & set(Y))` for a sorted `X`: the values occurring in both lists, each
    once, in increasing order.
   */
  function Diagonals(xs: seq<int>, ys: seq<int>): (d: seq<int>)
    requires Sorted(xs)
    ensures Increasing(d)
    ensures forall v :: v in d <==> v in xs && v in ys
  {
    if xs == [] then []
    else
      var last := xs[|xs| - 1];
      var front := xs[..|xs| - 1];
      assert xs == front + [last];
      var d := Diagonals(front, ys);
      if last in ys && last !in d then
        SortedBelowLast(front, last);
        AppendIncreasing(d, last);
        d + [last]
      else d
  }

  lemma AppendIncreasing(d: seq<int>, last: int)
    requires Increasing(d) && forall v :: v in d ==> v < last
    ensures Increasing(d + [last])
  {
    var e := d + [last];
    forall i, j | 0 <= i < j < |e|
      ensures e[i] < e[j]
    {
      assert e[i] == d[i] && d[i] in d;
    }
  }

  /** In a sorted list nothing before the last value exceeds it. */
  lemma SortedBelowLast(front: seq<int>, last: int)
    requires Sorted(front + [last])
    ensures forall v :: v in front ==> v <= last
  {
    var xs := front + [last];
    forall v | v in front
      ensures v <= last
    {
      var k :| 0 <= k < |front| && front[k] == v;
      assert xs[k] == v && xs[|xs| - 1] == last;
    }
  }

  /** A list of distinct values drawn from `ys` is no longer than `ys`. */
  lemma {:induction false} DistinctWithin(d: seq<int>, ys: seq<int>)
    requires Increasing(d) && forall v :: v in d ==> v in ys
    ensures |d| <= |ys|
    decreases |d|
  {
    if d != [] {
      var v := d[|d| - 1];
      assert v in d;
      var k :| 0 <= k < |ys| && ys[k] == v;
      var rest := ys[..k] + ys[k + 1..];
      forall u | u in d[..|d| - 1]
        ensures u in rest
      {
        var m :| 0 <= m < |d| - 1 && d[m] == u;
        assert u in d;
        var n :| 0 <= n < |ys| && ys[n] == u;
        assert n != k;
        if n < k {
          assert rest[n] == u;
        } else {
          assert rest[n - 1] == u;
        }
      }
      DistinctWithin(d[..|d| - 1], rest);
    }
  }

  /** There are no more diagonal points than values in either list. */
  lemma DiagonalsBound(xs: seq<int>, ys: seq<int>)
    requires Sorted(xs)
    ensures |Diagonals(xs, ys)| <= |xs| && |Diagonals(xs, ys)| <= |ys|
  {
    DistinctWithin(Diagonals(xs, ys), xs);
    DistinctWithin(Diagonals(xs, ys), ys);
  }

  /** A point `(x, y)` of the plane. */
  datatype Corner = Corner(x: int, y: int)

  /** The pair of corners `find_edges` returns: the lower-left one, then the upper-right one. */
  datatype Region = Region(low: Corner, high: Corner)

  /** `[d, d]`: the example at diagonal point `d`. */
  function Point(d: int): seq<Value>
  {
    [Int(d), Int(d)]
  }

  /** `[classify(tree, label, [d, d]) for d in diagonals]`, or the exception of the first failing call. */
  function ClassifyAll(t: Tree, labels: seq<string>, diag: seq<int>): (r: Result<seq<Option<Value>>>)
    ensures r.Ok? ==> |r.value| == |diag|
    ensures r.Ok? ==> forall i {:trigger r.value[i]} :: 0 <= i < |diag| ==> Classify(t, labels, Point(diag[i])) == Ok(r.value[i])
    ensures r.Err? ==> exists i :: 0 <= i < |diag| && Classify(t, labels, Point(diag[i])) == Err(r.error) &&
                                   forall j :: 0 <= j < i ==> Classify(t, labels, Point(diag[j])).Ok?
    ensures r.Err? ==> r.error != NoFalse
  {
    if diag == [] then Ok([])
    else
      match Classify(t, labels, Point(diag[0]))
      case Err(e) => Err(e)
      case Ok(first) =>
        match ClassifyAll(t, labels, diag[1..])
        case Err(e) =>
          FailureAfterFirst(t, labels, diag, e);
          Err(e)
        case Ok(rest) =>
          var r := [first] + rest;
          assert forall i {:trigger r[i]} :: 1 <= i < |diag| ==> r[i] == rest[i - 1] && diag[i] == diag[1..][i - 1];
          Ok(r)
  }

  /** A call failing first among the points after the first is the first failing call when the first point classifies. */
  lemma FailureAfterFirst(t: Tree, labels: seq<string>, diag: seq<int>, e: Error)
    requires diag != [] && Classify(t, labels, Point(diag[0])).Ok?
    requires exists j :: 0 <= j < |diag[1..]| && Classify(t, labels, Point(diag[1..][j])) == Err(e) &&
                         forall k :: 0 <= k < j ==> Classify(t, labels, Point(diag[1..][k])).Ok?
    ensures exists i :: 0 <= i < |diag| && Classify(t, labels, Point(diag[i])) == Err(e) &&
                        forall k :: 0 <= k < i ==> Classify(t, labels, Point(diag[k])).Ok?
  {
    var j :| 0 <= j < |diag[1..]| && Classify(t, labels, Point(diag[1..][j])) == Err(e) &&
             forall k :: 0 <= k < j ==> Classify(t, labels, Point(diag[1..][k])).Ok?;
    assert diag[1..][j] == diag[j + 1];
    assert forall k :: 1 <= k <= j ==> diag[k] == diag[1..][k - 1];
  }

  /** `x == False` in Python: the label `False`, or the integer 0. */
  predicate IsFalse(o: Option<Value>)
  {
    o == Some(Bool(false)) || o == Some(Int(0))
  }

  /**
    `False` equals the boolean `False` and the integer 0, but not `True`, 1, the string
    `"False"` or a missing classification.
   */
  lemma FalseEquality()
    ensures IsFalse(Some(Bool(false))) && IsFalse(Some(Int(0)))
    ensures !IsFalse(Some(Bool(true))) && !IsFalse(Some(Int(1))) && !IsFalse(Some(Str("False"))) && !IsFalse(None)
  {
  }

  /** `L.index(False)`: the first position holding a false value, or `None` where Python raises `ValueError`. */
  function FirstFalse(l: seq<Option<Value>>): (r: Option<nat>)
    ensures r.None? <==> forall i :: 0 <= i < |l| ==> !IsFalse(l[i])
    ensures r.Some? ==> r.value < |l| && IsFalse(l[r.value])
    ensures r.Some? ==> forall j :: 0 <= j < r.value ==> !IsFalse(l[j])
  {
    if l == [] then None
    else if IsFalse(l[0]) then Some(0)
    else
      match FirstFalse(l[1..])
      case None => None
      case Some(k) => Some(k + 1)
  }

  /**
    `L[::-1].index(False)`: the first false value met walking `l` from its end, counted
    from that end.
   */
  function FalseFromEnd(l: seq<Option<Value>>): (high: nat)
    requires exists i :: 0 <= i < |l| && IsFalse(l[i])
    ensures high < |l| && IsFalse(l[|l| - 1 - high])
    ensures forall j :: |l| - 1 - high < j < |l| ==> !IsFalse(l[j])
  {
    var front := l[..|l| - 1];
    if IsFalse(l[|l| - 1]) then 0
    else
      var i :| 0 <= i < |l| && IsFalse(l[i]);
      assert front[i] == l[i];
      1 + FalseFromEnd(front)
  }

  /**
    `find_edges` as written: the positions `low` and `len(X) - 1 - high` of the first and
    last false diagonal point are used to index the sorted coordinate lists `X` and `Y`
    rather than the diagonal list.
   */
  function EdgesAsWritten(t: Tree, labels: seq<string>, xs: seq<int>, ys: seq<int>): (r: Result<Region>)
    requires Sorted(xs) && Sorted(ys)
    ensures r.Ok? ==> r.value.low.x in xs && r.value.high.x in xs && r.value.low.y in ys && r.value.high.y in ys
  {
    var diag := Diagonals(xs, ys);
    DiagonalsBound(xs, ys);
    match ClassifyAll(t, labels, diag)
    case Err(e) => Err(e)
    case Ok(l) =>
      match FirstFalse(l)
      case None => Err(NoFalse)
      case Some(low) =>
        var high := FalseFromEnd(l);
        Ok(Region(Corner(xs[low], ys[low]), Corner(xs[|xs| - 1 - high], ys[|ys| - 1 - high])))
  }

  /**
    `find_edges` with the positions applied to the diagonal list: the corners are the
    least and the greatest diagonal point that the tree classifies as false.
   */
  function EdgesCorrected(t: Tree, labels: seq<string>, xs: seq<int>, ys: seq<int>): (r: Result<Region>)
    requires Sorted(xs)
    ensures r.Ok? ==> r.value.low.x == r.value.low.y && r.value.low.x in xs && r.value.low.x in ys
    ensures r.Ok? ==> r.value.high.x == r.value.high.y && r.value.high.x in xs && r.value.high.x in ys
  {
    var diag := Diagonals(xs, ys);
    match ClassifyAll(t, labels, diag)
    case Err(e) => Err(e)
    case Ok(l) => Corners(diag, l)
  }

  /** The diagonal points at the first and the last false value of `l`, as corners. */
  function Corners(diag: seq<int>, l: seq<Option<Value>>): (r: Result<Region>)
    requires |l| == |diag|
    ensures r.Err? <==> forall i :: 0 <= i < |l| ==> !IsFalse(l[i])
    ensures r.Err? ==> r.error == NoFalse
    ensures r.Ok? ==> r.value.low.x == r.value.low.y && r.value.low.x in diag
    ensures r.Ok? ==> r.value.high.x == r.value.high.y && r.value.high.x in diag
  {
    match FirstFalse(l)
    case None => Err(NoFalse)
    case Some(low) =>
      var last := |l| - 1 - FalseFromEnd(l);
      Ok(Region(Corner(diag[low], diag[low]), Corner(diag[last], diag[last])))
  }

  /** The diagonal point `d` is classified, and the result is false. */
  predicate FalseAt(t: Tree, labels: seq<string>, d: int)
  {
    Classify(t, labels, Point(d)).Ok? && IsFalse(Classify(t, labels, Point(d)).value)
  }

  /**
    `find_edges` raises `ValueError` exactly when every diagonal point is classified and
    none of them as false.
   */
  lemma CorrectedNoFalse(t: Tree, labels: seq<string>, xs: seq<int>, ys: seq<int>)
    requires Sorted(xs)
    ensures EdgesCorrected(t, labels, xs, ys) == Err(NoFalse) <==>
      (forall d :: d in xs && d in ys ==> Classify(t, labels, Point(d)).Ok?) &&
      (forall d :: d in xs && d in ys ==> !FalseAt(t, labels, d))
  {
    var diag := Diagonals(xs, ys);
    var all := ClassifyAll(t, labels, diag);
    if all.Ok? {
      forall d | d in xs && d in ys
        ensures Classify(t, labels, Point(d)) == Ok(all.value[IndexIn(diag, d)])
      {
        var k := IndexIn(diag, d);
      }
      if FirstFalse(all.value).Some? {
        var low := FirstFalse(all.value).value;
        assert diag[low] in diag;
      }
    } else {
      var k :| 0 <= k < |diag| && Classify(t, labels, Point(diag[k])).Err?;
      assert diag[k] in diag;
    }
  }

  /** Some position of `s` holds `v`. */
  function IndexIn(s: seq<int>, v: int): (k: nat)
    requires v in s
    ensures k < |s| && s[k] == v
  {
    if s[0] == v then 0 else 1 + IndexIn(s[1..], v)
  }

  /**
    The corners found are diagonal points classified as false, and no diagonal point
    below the first or above the second is classified as false.
   */
  lemma CorrectedCorners(t: Tree, labels: seq<string>, xs: seq<int>, ys: seq<int>)
    requires Sorted(xs)
    requires EdgesCorrected(t, labels, xs, ys).Ok?
    ensures var low, high := EdgesCorrected(t, labels, xs, ys).value.low.x, EdgesCorrected(t, labels, xs, ys).value.high.x;
      && low in xs && low in ys && high in xs && high in ys
      && FalseAt(t, labels, low) && FalseAt(t, labels, high) && low <= high
      && (forall d :: d in xs && d in ys && d < low ==> !FalseAt(t, labels, d))
      && (forall d :: d in xs && d in ys && d > high ==> !FalseAt(t, labels, d))
  {
    var diag := Diagonals(xs, ys);
    var l := CorrectedUnfold(t, labels, xs, ys);
    CornersExtremes(diag, l);
    var c := Corners(diag, l).value;
    var i :| 0 <= i < |diag| && diag[i] == c.low.x && IsFalse(l[i]);
    var j :| 0 <= j < |diag| && diag[j] == c.high.x && IsFalse(l[j]);
    assert diag[i] in diag && diag[j] in diag;
    ClassifiedAt(t, labels, diag, l, i);
    ClassifiedAt(t, labels, diag, l, j);
    forall d | d in xs && d in ys && (d < c.low.x || d > c.high.x)
      ensures !FalseAt(t, labels, d)
    {
      var k := IndexIn(diag, d);
      ClassifiedAt(t, labels, diag, l, k);
    }
  }

  /** The `k`-th classification of the diagonal is the one of the `k`-th diagonal point. */
  lemma ClassifiedAt(t: Tree, labels: seq<string>, diag: seq<int>, l: seq<Option<Value>>, k: nat)
    requires ClassifyAll(t, labels, diag) == Ok(l) && k < |diag|
    ensures FalseAt(t, labels, diag[k]) <==> IsFalse(l[k])
  {
    assert Classify(t, labels, Point(diag[k])) == Ok(l[k]);
  }

  /** Names the classifications behind a successful `EdgesCorrected`. */
  lemma CorrectedUnfold(t: Tree, labels: seq<string>, xs: seq<int>, ys: seq<int>) returns (l: seq<Option<Value>>)
    requires Sorted(xs)
    requires EdgesCorrected(t, labels, xs, ys).Ok?
    ensures ClassifyAll(t, labels, Diagonals(xs, ys)) == Ok(l)
    ensures EdgesCorrected(t, labels, xs, ys) == Corners(Diagonals(xs, ys), l)
  {
    l := ClassifyAll(t, labels, Diagonals(xs, ys)).value;
  }

  /**
    Over an increasing diagonal, the corners picked are false points, the first no greater
    than the second, with no false point below the first or above the second.
   */
  lemma CornersExtremes(diag: seq<int>, l: seq<Option<Value>>)
    requires Increasing(diag) && |l| == |diag| && Corners(diag, l).Ok?
    ensures var c := Corners(diag, l).value;
      && c.low.x == c.low.y && c.high.x == c.high.y && c.low.x <= c.high.x
      && (exists k :: 0 <= k < |diag| && diag[k] == c.low.x && IsFalse(l[k]))
      && (exists k :: 0 <= k < |diag| && diag[k] == c.high.x && IsFalse(l[k]))
      && (forall k :: 0 <= k < |diag| && diag[k] < c.low.x ==> !IsFalse(l[k]))
      && (forall k :: 0 <= k < |diag| && diag[k] > c.high.x ==> !IsFalse(l[k]))
  {
    var low := FirstFalse(l).value;
    var last := |l| - 1 - FalseFromEnd(l);
    assert Corners(diag, l).value == Region(Corner(diag[low], diag[low]), Corner(diag[last], diag[last]));
    assert low <= last;
    forall k | 0 <= k < |diag| && diag[k] < diag[low]
      ensures k < low
    {
    }
    forall k | 0 <= k < |diag| && diag[k] > diag[last]
      ensures k > last
    {
    }
  }

  /** A corner found as written agrees with the diagonal in existence and in the errors raised. */
  lemma AsWrittenFailsAlike(t: Tree, labels: seq<string>, xs: seq<int>, ys: seq<int>)
    requires Sorted(xs) && Sorted(ys)
    ensures EdgesAsWritten(t, labels, xs, ys).Ok? <==> EdgesCorrected(t, labels, xs, ys).Ok?
    ensures EdgesAsWritten(t, labels, xs, ys).Err? ==>
      EdgesAsWritten(t, labels, xs, ys) == EdgesCorrected(t, labels, xs, ys)
  {
  }

  /**
    `find_edges(tree, label, X, Y)`: sorts both coordinate lists in place (they may be the
    same list), then returns the corners picked from the diagonal.
   */
  method FindEdges(t: Tree, labels: seq<string>, xArr: array<int>, yArr: array<int>) returns (r: Result<Region>)
    modifies xArr, yArr
    ensures Sorted(xArr[..]) && Sorted(yArr[..])
    ensures xArr != yArr ==> multiset(xArr[..]) == old(multiset(xArr[..])) && multiset(yArr[..]) == old(multiset(yArr[..]))
    ensures xArr == yArr ==> multiset(xArr[..]) == old(multiset(xArr[..]))
    ensures r == EdgesCorrected(t, labels, xArr[..], yArr[..])
  {
    SortInPlace(xArr);
    SortInPlace(yArr);
    r := EdgesCorrected(t, labels, xArr[..], yArr[..]);
  }

  /** A stump on feature `x`: false exactly where `x` is 1. */
  function StepTree(): Tree
  {
    Node("x", [(Int(0), Leaf(Bool(true))), (Int(1), Leaf(Bool(false)))])
  }

  /**
    With `X = Y = [0, 0, 1]` the only false diagonal point is `(1, 1)`, at position 1 of
    the diagonal `[0, 1]`; as written, position 1 of the sorted `X` and `Y` gives the
    corner `(0, 0)`, a point the tree classifies as true.
   */
  lemma CornerMissesBoundary()
    ensures EdgesAsWritten(StepTree(), ["x", "y"], [0, 0, 1], [0, 0, 1]) == Ok(Region(Corner(0, 0), Corner(1, 1)))
    ensures Classify(StepTree(), ["x", "y"], Point(0)) == Ok(Some(Bool(true)))
    ensures EdgesCorrected(StepTree(), ["x", "y"], [0, 0, 1], [0, 0, 1]) == Ok(Region(Corner(1, 1), Corner(1, 1)))
  {
    var xs := [0, 0, 1];
    var l := StepSetup();
    assert xs[1] == 0 && xs[|xs| - 1 - 0] == 1;
    StepCorrected();
  }

  lemma StepCorrected()
    ensures EdgesCorrected(StepTree(), ["x", "y"], [0, 0, 1], [0, 0, 1]) == Ok(Region(Corner(1, 1), Corner(1, 1)))
  {
    var l := StepSetup();
    assert Corners([0, 1], l) == Ok(Region(Corner(1, 1), Corner(1, 1)));
  }

  /** The classifications behind both versions on the stump with `X = Y = [0, 0, 1]`. */
  lemma StepSetup() returns (l: seq<Option<Value>>)
    ensures Diagonals([0, 0, 1], [0, 0, 1]) == [0, 1]
    ensures Classify(StepTree(), ["x", "y"], Point(0)) == Ok(Some(Bool(true)))
    ensures ClassifyAll(StepTree(), ["x", "y"], [0, 1]) == Ok(l)
    ensures |l| == 2 && FirstFalse(l) == Some(1) && FalseFromEnd(l) == 0
  {
    StepDiagonal();
    StepLabels();
    StepFalse();
    l := [Some(Bool(true)), Some(Bool(false))];
  }

  /** Over the stump's classifications of the diagonal, `(1, 1)` is the first and the last false point. */
  lemma StepFalse()
    ensures FirstFalse([Some(Bool(true)), Some(Bool(false))]) == Some(1)
    ensures FalseFromEnd([Some(Bool(true)), Some(Bool(false))]) == 0
  {
    var l: seq<Option<Value>> := [Some(Bool(true)), Some(Bool(false))];
    assert l[1..] == [Some(Bool(false))];
    assert IsFalse(l[1]);
  }

  /** The diagonal of `X = Y = [0, 0, 1]` is `[0, 1]`: the only increasing list holding exactly 0 and 1. */
  lemma StepDiagonal()
    ensures Diagonals([0, 0, 1], [0, 0, 1]) == [0, 1]
  {
    var xs: seq<int> := [0, 0, 1];
    assert 0 in xs && 1 in xs;
    var d := Diagonals(xs, xs);
    assert 0 in d && 1 in d;
    assert forall v :: v in d ==> v in [0, 1];
    DistinctWithin(d, [0, 1]);
    assert d[0] in d && d[1] in d;
  }

  /** The stump classifies `(0, 0)` as true and `(1, 1)` as false. */
  lemma StepLabels()
    ensures Classify(StepTree(), ["x", "y"], Point(0)) == Ok(Some(Bool(true)))
    ensures ClassifyAll(StepTree(), ["x", "y"], [0, 1]) == Ok([Some(Bool(true)), Some(Bool(false))])
  {
    var t, labels := StepTree(), ["x", "y"];
    StepClassifies();
    assert [1][1..] == [] && [0, 1][1..] == [1];
    assert ClassifyAll(t, labels, []) == Ok([]);
    assert [Some(Bool(false))] + [] == [Some(Bool(false))];
    assert ClassifyAll(t, labels, [1]) == Ok([Some(Bool(false))]);
    assert [Some(Bool(true))] + [Some(Bool(false))] == [Some(Bool(true)), Some(Bool(false))];
  }

  lemma StepClassifies()
    ensures Classify(StepTree(), ["x", "y"], Point(0)) == Ok(Some(Bool(true)))
    ensures Classify(StepTree(), ["x", "y"], Point(1)) == Ok(Some(Bool(false)))
  {
    var t, labels := StepTree(), ["x", "y"];
    assert IndexOf(labels, "x") == Some(0);
    assert FindKey(t.children, Int(0)) == Some(0);
    assert FindKey(t.children, Int(1)) == Some(1);
  }
}
