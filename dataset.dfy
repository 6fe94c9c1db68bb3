/**
  Training data: rows of feature values whose last element is the class label,
  together with the list comprehensions the classifier builds over them.
 */
module Dataset {
  import opened Values

  type Row = seq<Value>
  type Data = seq<Row>

  /** All rows have the same length, at least one (the class label), and every feature column has a name. */
  predicate Shaped(data: Data, labels: seq<string>)
  {
    forall i :: 0 <= i < |data| ==> 1 <= |data[i]| == |data[0]| <= |labels| + 1
  }

  /** All rows have the same length, at least one. */
  predicate Rectangular(data: Data)
  {
    forall i :: 0 <= i < |data| ==> 1 <= |data[i]| == |data[0]|
  }

  /** `row[-1]`: the class label of a row. */
  function LabelOf(row: Row): Value
    requires |row| > 0
  {
    row[|row| - 1]
  }

  /** `[i[-1] for i in data]` */
  function ClassLabels(data: Data): (r: seq<Value>)
    requires forall i :: 0 <= i < |data| ==> |data[i]| > 0
    ensures |r| == |data|
  {
    seq(|data|, i requires 0 <= i < |data| => LabelOf(data[i]))
  }

  /** `[d[f] for d in data]` */
  function Column(data: Data, f: nat): (c: seq<Value>)
    requires forall i :: 0 <= i < |data| ==> f < |data[i]|
    ensures |c| == |data|
  {
    seq(|data|, i requires 0 <= i < |data| => data[i][f])
  }

  /** The class labels are exactly the labels of the rows. */
  lemma ClassLabelsMembers(data: Data)
    requires forall i :: 0 <= i < |data| ==> |data[i]| > 0
    ensures forall v :: v in ClassLabels(data) <==> exists i :: 0 <= i < |data| && LabelOf(data[i]) == v
  {
    assert forall i :: 0 <= i < |data| ==> ClassLabels(data)[i] == LabelOf(data[i]);
  }

  /** A column holds exactly the rows' values of its feature. */
  lemma ColumnMembers(data: Data, f: nat)
    requires forall i :: 0 <= i < |data| ==> f < |data[i]|
    ensures forall v :: v in Column(data, f) <==> exists i :: 0 <= i < |data| && data[i][f] == v
  {
    assert forall i :: 0 <= i < |data| ==> Column(data, f)[i] == data[i][f];
  }

  /** Every row carries the same class label. */
  predicate Pure(data: Data)
    requires forall i :: 0 <= i < |data| ==> |data[i]| > 0
  {
    forall i :: 0 <= i < |data| ==> LabelOf(data[i]) == LabelOf(data[0])
  }

  /** No element occurs twice: the values of a `set`, or the feature names of `label`. */
  predicate NoDuplicates<T(==)>(s: seq<T>)
  {
    forall i, j :: 0 <= i < j < |s| ==> s[i] != s[j]
  }

  /**
    The distinct elements of `s` in the order of their first occurrence: the key order
    of a `Counter` built from `s`, and the order in which the model lists the values of
    `set(s)`.
   */
  function Distinct(s: seq<Value>): (d: seq<Value>)
    ensures forall v :: v in d <==> v in s
    ensures NoDuplicates(d)
    ensures |d| <= |s|
  {
    if s == [] then []
    else
      var d := Distinct(s[..|s| - 1]);
      assert s == s[..|s| - 1] + [s[|s| - 1]];
      if s[|s| - 1] in d then d else d + [s[|s| - 1]]
  }

  /** Taking the distinct values of a prefix lists a prefix of the distinct values. */
  lemma {:induction false} DistinctPrefix(s: seq<Value>, n: nat)
    requires n <= |s|
    ensures Distinct(s[..n]) <= Distinct(s)
    decreases |s|
  {
    if n < |s| {
      var t := s[..|s| - 1];
      assert t[..n] == s[..n];
      DistinctPrefix(t, n);
    } else {
      assert s[..n] == s;
    }
  }

  /** `[d for d in data if d[f] == v]` */
  function Partition(data: Data, f: nat, v: Value): (p: Data)
    requires forall i :: 0 <= i < |data| ==> f < |data[i]|
    ensures |p| <= |data|
    ensures forall r :: r in p <==> r in data && r[f] == v
  {
    if data == [] then []
    else
      var rest := Partition(data[1..], f, v);
      assert data == [data[0]] + data[1..];
      if data[0][f] == v then [data[0]] + rest else rest
  }

  /** A partition keeps every row exactly when every row has the value. */
  lemma PartitionKeepsAll(data: Data, f: nat, v: Value)
    requires forall i :: 0 <= i < |data| ==> f < |data[i]|
    ensures Partition(data, f, v) == data <==> forall i :: 0 <= i < |data| ==> data[i][f] == v
  {
    if forall i :: 0 <= i < |data| ==> data[i][f] == v {
      AllRowsKept(data, f, v);
    } else {
      var i :| 0 <= i < |data| && data[i][f] != v;
      assert data[i] in data;
    }
  }

  lemma {:induction false} AllRowsKept(data: Data, f: nat, v: Value)
    requires forall i :: 0 <= i < |data| ==> f < |data[i]| && data[i][f] == v
    ensures Partition(data, f, v) == data
  {
    if data != [] {
      AllRowsKept(data[1..], f, v);
    }
  }

  /** A partition as long as the data is the data. */
  lemma {:induction false} FullPartition(data: Data, f: nat, v: Value)
    requires forall i :: 0 <= i < |data| ==> f < |data[i]|
    ensures |Partition(data, f, v)| == |data| ==> Partition(data, f, v) == data
  {
    if data != [] {
      FullPartition(data[1..], f, v);
      assert data == [data[0]] + data[1..];
    }
  }

  /** The multiset union of the partitions of `data` on the values `vs`. */
  function Gathered(data: Data, f: nat, vs: seq<Value>): multiset<Row>
    requires forall i :: 0 <= i < |data| ==> f < |data[i]|
  {
    if vs == [] then multiset{} else multiset(Partition(data, f, vs[0])) + Gathered(data, f, vs[1..])
  }

  /** Moving the first row out of every partition takes it out of the union exactly once. */
  lemma {:induction false} GatheredFirstRow(data: Data, f: nat, vs: seq<Value>)
    requires |data| > 0 && forall i :: 0 <= i < |data| ==> f < |data[i]|
    requires NoDuplicates(vs)
    ensures Gathered(data, f, vs)
         == Gathered(data[1..], f, vs) + (if data[0][f] in vs then multiset{data[0]} else multiset{})
  {
    if vs != [] {
      GatheredFirstRow(data, f, vs[1..]);
      assert data[0][f] in vs <==> data[0][f] == vs[0] || data[0][f] in vs[1..];
      assert data[0][f] == vs[0] ==> data[0][f] !in vs[1..];
    }
  }

  /**
    Partitioning on every value of column `f` (each listed once) splits the rows
    completely: the partitions together hold each row exactly as often as `data` does.
   */
  lemma {:induction false} PartitionsCover(data: Data, f: nat, vs: seq<Value>)
    requires forall i :: 0 <= i < |data| ==> f < |data[i]| && data[i][f] in vs
    requires NoDuplicates(vs)
    ensures Gathered(data, f, vs) == multiset(data)
    decreases |data|
  {
    if data == [] {
      EmptyGathered(f, vs);
    } else {
      PartitionsCover(data[1..], f, vs);
      CoverFirstRow(data, f, vs);
    }
  }

  /** If the partitions of all rows but the first cover them, the partitions of all rows cover all rows. */
  lemma CoverFirstRow(data: Data, f: nat, vs: seq<Value>)
    requires |data| > 0 && forall i :: 0 <= i < |data| ==> f < |data[i]| && data[i][f] in vs
    requires NoDuplicates(vs)
    requires Gathered(data[1..], f, vs) == multiset(data[1..])
    ensures Gathered(data, f, vs) == multiset(data)
  {
    GatheredFirstRow(data, f, vs);
    RowsOfCons(data);
  }

  lemma RowsOfCons(data: Data)
    requires |data| > 0
    ensures multiset(data) == multiset(data[1..]) + multiset{data[0]}
  {
    assert data == [data[0]] + data[1..];
  }

  lemma {:induction false} EmptyGathered(f: nat, vs: seq<Value>)
    ensures Gathered([], f, vs) == multiset{}
  {
    if vs != [] {
      EmptyGathered(f, vs[1..]);
    }
  }

  /** A sequence contains `c` as often as it is long exactly when every element is `c`. */
  lemma {:induction false} CountIsLength(s: seq<Value>, c: Value)
    ensures multiset(s)[c] <= |s|
    ensures multiset(s)[c] == |s| <==> forall i :: 0 <= i < |s| ==> s[i] == c
  {
    if s != [] {
      var t := s[..|s| - 1];
      CountIsLength(t, c);
      assert s == t + [s[|s| - 1]];
      if s[|s| - 1] != c {
        assert multiset(s)[c] < |s|;
      }
    }
  }

  /**
    Partitioning on the distinct values of a column: every row's value is listed, each
    partition is non-empty, no row lies in two partitions, and the partitions together
    hold every row as often as the data does.
   */
  lemma ColumnValuesPartition(data: Data, f: nat)
    requires forall i :: 0 <= i < |data| ==> f < |data[i]|
    ensures var vs := Distinct(Column(data, f));
      && (forall r :: r in data ==> r[f] in vs)
      && (forall i :: 0 <= i < |vs| ==> |Partition(data, f, vs[i])| > 0)
      && (forall i, j, r :: 0 <= i < j < |vs| && r in Partition(data, f, vs[i]) ==> r !in Partition(data, f, vs[j]))
      && Gathered(data, f, vs) == multiset(data)
  {
    var column := Column(data, f);
    var vs := Distinct(column);
    forall r | r in data
      ensures r[f] in vs
    {
      var i :| 0 <= i < |data| && data[i] == r;
      assert column[i] == r[f];
    }
    forall i | 0 <= i < |vs|
      ensures |Partition(data, f, vs[i])| > 0
    {
      assert vs[i] in column;
      var j :| 0 <= j < |column| && column[j] == vs[i];
      assert data[j] in Partition(data, f, vs[i]);
    }
    PartitionsCover(data, f, vs);
  }
}
