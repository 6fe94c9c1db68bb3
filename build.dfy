/**
  `create_tree`: ID3 induction. A partition whose rows all carry one label becomes a
  leaf; otherwise the rows are split on the feature of greatest information gain,
  one child per distinct value of that feature.

  The recursion of the source does not terminate when the chosen feature takes a
  single value in the partition: the only partition is the data itself, the same
  feature is chosen again, and so on. This model stops there with the majority label
  (the guard `Stalls`); `SourceRecursion` shows that the source never finishes in
  exactly those cases, and agrees with this model in all others.
 */
module Build {
  import opened Outcomes
  import opened Values
  import opened Dataset
  import opened Selection
  import opened Trees

  /** The inputs `create_tree` returns a tree for (rather than raising). */
  predicate Buildable(data: Data, labels: seq<string>)
  {
    Shaped(data, labels) && |data| > 0 && (|data[0]| >= 2 || Pure(data))
  }

  /** The chosen feature takes fewer than two values, so splitting on it would not shrink the data. */
  predicate Stalls(data: Data, gain: (Data, nat) -> real)
    requires Rectangular(data) && |data| > 0 && |data[0]| >= 2
  {
    |Distinct(Column(data, BestFeatureForSplit(data, gain)))| < 2
  }

  /** A leaf is made exactly when `count == len(data)`, that is, when the data is pure. */
  lemma {:induction false} LeafIffPure(data: Data)
    requires |data| > 0 && Rectangular(data)
    ensures PotentialLeafNode(data).1 == |data| <==> Pure(data)
    ensures Pure(data) ==> PotentialLeafNode(data).0 == LabelOf(data[0])
  {
    var labels := ClassLabels(data);
    var (c, n) := PotentialLeafNode(data);
    CountIsLength(labels, c);
    CountIsLength(labels, labels[0]);
    assert forall i :: 0 <= i < |data| ==> labels[i] == LabelOf(data[i]);
    if Pure(data) {
      assert forall i :: 0 <= i < |labels| ==> labels[i] == labels[0];
      assert multiset(labels)[labels[0]] == |labels|;
      var j :| 0 <= j < |labels| && labels[j] == c;
    }
    if n == |data| {
      assert forall i :: 0 <= i < |labels| ==> labels[i] == c;
    }
  }

  /** The rows having a value that occurs in column `f` form a buildable partition of the same width. */
  lemma PartitionShaped(data: Data, labels: seq<string>, f: nat, v: Value)
    requires Shaped(data, labels) && |data| > 0 && f < |data[0]| - 1
    requires v in Column(data, f)
    ensures Shaped(Partition(data, f, v), labels)
    ensures |Partition(data, f, v)| > 0 && |Partition(data, f, v)[0]| == |data[0]|
  {
    var p := Partition(data, f, v);
    var j :| 0 <= j < |data| && data[j][f] == v;
    assert data[j] in p;
    forall i | 0 <= i < |p|
      ensures 1 <= |p[i]| == |p[0]| <= |labels| + 1
    {
      assert p[i] in data && p[0] in data;
    }
  }

  /** Splitting on two or more distinct values gives non-empty partitions strictly smaller than the data. */
  lemma SplitShrinks(data: Data, labels: seq<string>, f: nat, classes: seq<Value>)
    requires Shaped(data, labels) && |data| > 0 && f < |data[0]| - 1
    requires classes == Distinct(Column(data, f)) && |classes| >= 2
    ensures forall i :: 0 <= i < |classes| ==>
      && Shaped(Partition(data, f, classes[i]), labels)
      && 0 < |Partition(data, f, classes[i])| < |data|
      && |Partition(data, f, classes[i])[0]| == |data[0]|
  {
    forall i | 0 <= i < |classes|
      ensures Shaped(Partition(data, f, classes[i]), labels)
      ensures 0 < |Partition(data, f, classes[i])| < |data|
      ensures |Partition(data, f, classes[i])[0]| == |data[0]|
    {
      PartitionShaped(data, labels, f, classes[i]);
      PartitionMissesRow(data, f, classes, i);
    }
  }

  /** With two distinct values in column `f`, the partition on any one of them leaves out some row. */
  lemma PartitionMissesRow(data: Data, f: nat, classes: seq<Value>, i: nat)
    requires forall j :: 0 <= j < |data| ==> f < |data[j]|
    requires classes == Distinct(Column(data, f)) && |classes| >= 2 && i < |classes|
    ensures |Partition(data, f, classes[i])| < |data|
  {
    FullPartition(data, f, classes[i]);
    PartitionKeepsAll(data, f, classes[i]);
    var other := if i == 0 then 1 else 0;
    var column := Column(data, f);
    assert classes[other] in column;
    var j :| 0 <= j < |column| && column[j] == classes[other];
    assert data[j][f] != classes[i];
  }

  /**
    The tree `create_tree(data, label)` builds, with the termination guard: the
    specification of `CreateTree`.
   */
  function Id3Tree(data: Data, labels: seq<string>, gain: (Data, nat) -> real): (r: Result<Tree>)
    requires Shaped(data, labels)
    ensures r == Err(EmptyData) <==> |data| == 0
    ensures r.Ok? <==> Buildable(data, labels)
    ensures r == Err(NoFeatures) <==> |data| > 0 && !Buildable(data, labels)
    ensures r.Ok? && Pure(data) ==> r.value == Leaf(LabelOf(data[0]))
    ensures r.Ok? && r.value.Leaf? ==>
      r.value.category == PotentialLeafNode(data).0 && (Pure(data) || Stalls(data, gain))
    ensures r.Ok? && r.value.Node? ==>
      && !Pure(data) && !Stalls(data, gain)
      && r.value.feature == labels[BestFeatureForSplit(data, gain)]
      && Keys(r.value.children) == Distinct(Column(data, BestFeatureForSplit(data, gain)))
    decreases |data|
  {
    if |data| == 0 then Err(EmptyData)
    else
      var (category, count) := PotentialLeafNode(data);
      LeafIffPure(data);
      if count == |data| then Ok(Leaf(category))
      else if |data[0]| < 2 then Err(NoFeatures)
      else
        var feature := BestFeatureForSplit(data, gain);
        var classes := Distinct(Column(data, feature));
        if |classes| < 2 then Ok(Leaf(category))
        else
          SplitShrinks(data, labels, feature, classes);
          var children := seq(|classes|, i requires 0 <= i < |classes| =>
            (classes[i], Id3Tree(Partition(data, feature, classes[i]), labels, gain).value));
          assert Keys(children) == classes;
          Ok(Node(labels[feature], children))
  }

  /**
    An impure partition that does not stall becomes a node named after the chosen
    feature, with one child per distinct value of that feature, each child the tree
    of exactly the rows having that value.
   */
  lemma SplitNode(data: Data, labels: seq<string>, gain: (Data, nat) -> real)
    requires Buildable(data, labels) && !Pure(data) && !Stalls(data, gain)
    ensures var feature := BestFeatureForSplit(data, gain);
      var classes := Distinct(Column(data, feature));
      var t := Id3Tree(data, labels, gain);
      && t.Ok? && t.value.Node?
      && t.value.feature == labels[feature]
      && |t.value.children| == |classes|
      && forall i :: 0 <= i < |classes| ==>
        && Shaped(Partition(data, feature, classes[i]), labels)
        && 0 < |Partition(data, feature, classes[i])| < |data|
        && |Partition(data, feature, classes[i])[0]| == |data[0]|
        && t.value.children[i] == (classes[i], Id3Tree(Partition(data, feature, classes[i]), labels, gain).value)
  {
    var feature := BestFeatureForSplit(data, gain);
    var classes := Distinct(Column(data, feature));
    SplitShrinks(data, labels, feature, classes);
    LeafIffPure(data);
  }

  /**
    `create_tree`: a leaf for a pure partition, otherwise a node named after the
    feature of greatest gain, with the termination guard `|classes| < 2`.
   */
  method CreateTree(data: Data, labels: seq<string>, gain: (Data, nat) -> real) returns (r: Result<Tree>)
    requires Shaped(data, labels)
    ensures r == Id3Tree(data, labels, gain)
    decreases |data|, 1
  {
    if |data| == 0 {
      return Err(EmptyData);
    }
    LeafIffPure(data);
    var (category, count) := PotentialLeafNode(data);
    if count == |data| {
      return Ok(Leaf(category));
    }
    if |data[0]| < 2 {
      return Err(NoFeatures);
    }
    var feature := BestFeatureForSplit(data, gain);
    var featureLabel := labels[feature];
    var classes := Distinct(Column(data, feature));
    if |classes| < 2 {
      return Ok(Leaf(category));
    }
    var node := BuildChildren(data, labels, gain, feature, classes);
    return Ok(Node(featureLabel, node));
  }

  /** The loop of `create_tree` that fills the node's dictionary, one partition at a time. */
  method BuildChildren(data: Data, labels: seq<string>, gain: (Data, nat) -> real, feature: nat, classes: seq<Value>)
    returns (node: seq<(Value, Tree)>)
    requires Buildable(data, labels) && !Pure(data) && !Stalls(data, gain)
    requires feature == BestFeatureForSplit(data, gain) && classes == Distinct(Column(data, feature))
    ensures Id3Tree(data, labels, gain) == Ok(Node(labels[feature], node))
    decreases |data|, 0
  {
    ghost var t := Id3Tree(data, labels, gain).value;
    ChildOfNode(data, labels, gain, 0);
    node := [];
    for i := 0 to |classes|
      invariant |t.children| == |classes| && node == t.children[..i]
    {
      var partitioned := Partition(data, feature, classes[i]);
      ChildOfNode(data, labels, gain, i);
      PrefixStep(t.children, i);
      var child := CreateTree(partitioned, labels, gain);
      node := node + [(classes[i], child.value)];
    }
    assert node == t.children;
  }

  lemma PrefixStep(children: seq<(Value, Tree)>, i: nat)
    requires i < |children|
    ensures children[..i + 1] == children[..i] + [children[i]]
  {
  }

  /** The `i`-th child of a node is the tree of the `i`-th partition. */
  lemma ChildOfNode(data: Data, labels: seq<string>, gain: (Data, nat) -> real, i: nat)
    requires Buildable(data, labels) && !Pure(data) && !Stalls(data, gain)
    requires i < |Distinct(Column(data, BestFeatureForSplit(data, gain)))|
    ensures var feature := BestFeatureForSplit(data, gain);
      var part := Partition(data, feature, Distinct(Column(data, feature))[i]);
      var t := Id3Tree(data, labels, gain);
      && Buildable(part, labels) && |part| < |data|
      && t.Ok? && t.value.Node? && t.value.feature == labels[feature]
      && |t.value.children| == |Distinct(Column(data, feature))|
      && t.value.children[i] == (Distinct(Column(data, feature))[i], Id3Tree(part, labels, gain).value)
  {
    SplitNode(data, labels, gain);
  }

  /**
    The guard never fires anywhere in the recursion: every partition reached is either
    pure or split on a feature taking at least two values.
   */
  ghost predicate Decisive(data: Data, labels: seq<string>, gain: (Data, nat) -> real)
    requires Buildable(data, labels)
    decreases |data|
  {
    Pure(data) ||
    (var feature := BestFeatureForSplit(data, gain);
     var classes := Distinct(Column(data, feature));
     && |classes| >= 2
     && forall i :: 0 <= i < |classes| ==>
       var part := Partition(data, feature, classes[i]);
       Buildable(part, labels) && |part| < |data| && Decisive(part, labels, gain))
  }

  /** When the builder does not stall anywhere, it makes a leaf exactly for a pure partition. */
  lemma DecisiveLeafIffPure(data: Data, labels: seq<string>, gain: (Data, nat) -> real)
    requires Buildable(data, labels) && Decisive(data, labels, gain)
    ensures Id3Tree(data, labels, gain).value.Leaf? <==> Pure(data)
    ensures Pure(data) ==> Id3Tree(data, labels, gain).value == Leaf(LabelOf(data[0]))
  {
  }

  /**
    The children of a node partition its data: the keys are distinct, every row's value
    of the chosen feature is a key, every partition is non-empty, no row lies in two
    partitions, and together the partitions hold every row as often as the data does.
   */
  lemma NodePartitionsData(data: Data, labels: seq<string>, gain: (Data, nat) -> real)
    requires Buildable(data, labels) && Id3Tree(data, labels, gain).value.Node?
    ensures var t := Id3Tree(data, labels, gain).value;
      var feature := BestFeatureForSplit(data, gain);
      var keys := Keys(t.children);
      && NoDuplicates(keys)
      && (forall r :: r in data ==> r[feature] in keys)
      && (forall i :: 0 <= i < |keys| ==> |Partition(data, feature, keys[i])| > 0)
      && (forall i, j, r :: 0 <= i < j < |keys| && r in Partition(data, feature, keys[i]) ==>
            r !in Partition(data, feature, keys[j]))
      && Gathered(data, feature, keys) == multiset(data)
  {
    var feature := BestFeatureForSplit(data, gain);
    var classes := Distinct(Column(data, feature));
    SplitNode(data, labels, gain);
    assert Keys(Id3Tree(data, labels, gain).value.children) == classes;
    ColumnValuesPartition(data, feature);
  }

  /** Every leaf of the tree holds a class label that occurs in the data. */
  lemma {:induction false} LeavesAreTrainingLabels(data: Data, labels: seq<string>, gain: (Data, nat) -> real, l: Value)
    requires Buildable(data, labels)
    requires HasLeaf(Id3Tree(data, labels, gain).value, l)
    ensures l in ClassLabels(data)
    decreases |data|
  {
    var t := Id3Tree(data, labels, gain).value;
    if t.Leaf? {
      assert t.category == l;
    } else {
      SplitNode(data, labels, gain);
      var feature := BestFeatureForSplit(data, gain);
      var classes := Distinct(Column(data, feature));
      var children := t.children;
      assert exists i :: 0 <= i < |children| && HasLeaf(children[i].1, l);
      var i :| 0 <= i < |children| && HasLeaf(children[i].1, l);
      var p := Partition(data, feature, classes[i]);
      assert children[i].1 == Id3Tree(p, labels, gain).value;
      LeavesAreTrainingLabels(p, labels, gain, l);
      var k :| 0 <= k < |p| && ClassLabels(p)[k] == l;
      assert p[k] in p;
      var m :| 0 <= m < |data| && data[m] == p[k];
      assert ClassLabels(data)[m] == l;
    }
  }
}
