/**
  `create_tree` exactly as written, without a termination guard. Python gives up at its
  recursion limit; here a `Depth` bounds how many more nested calls may still be made,
  and `None` stands for a recursion that has not finished within it.

  The lemmas show that the source finishes (for some depth) exactly on `Decisive`
  inputs, where it builds the same tree as `Build.Id3Tree`, and that it never finishes
  once a partition is impure and the chosen feature takes a single value there.
 */
module SourceRecursion {
  import opened Outcomes
  import opened Values
  import opened Dataset
  import opened Selection
  import opened Trees
  import opened Build

  /** How many more nested calls the interpreter allows: `Deeper(d)` allows one more than `d`. */
  datatype Depth = Exhausted | Deeper(below: Depth)

  function Levels(depth: Depth): nat
  {
    if depth.Exhausted? then 0 else 1 + Levels(depth.below)
  }

  /** The depth allowing exactly `n` nested calls. */
  function DepthOf(n: nat): (depth: Depth)
    ensures Levels(depth) == n
  {
    if n == 0 then Exhausted else Deeper(DepthOf(n - 1))
  }

  function CreateTreeAsWritten(data: Data, labels: seq<string>, gain: (Data, nat) -> real, depth: Depth): (r: Option<Tree>)
    requires Buildable(data, labels)
    ensures depth.Deeper? && Pure(data) ==> r == Some(Leaf(LabelOf(data[0])))
    ensures r.Some? && r.value.Leaf? ==> Pure(data)
    decreases depth, 0
  {
    match depth
    case Exhausted => None
    case Deeper(below) =>
      var (category, count) := PotentialLeafNode(data);
      LeafIffPure(data);
      if count == |data| then Some(Leaf(category))
      else
        var feature := BestFeatureForSplit(data, gain);
        var classes := Distinct(Column(data, feature));
        match ChildrenAsWritten(data, labels, gain, feature, classes, below)
        case None => None
        case Some(node) => Some(Node(labels[feature], node))
  }

  /** The `for c in classes` loop: one subtree per value, in order, stopping at the first that does not finish. */
  function ChildrenAsWritten(data: Data, labels: seq<string>, gain: (Data, nat) -> real,
                             feature: nat, classes: seq<Value>, depth: Depth): (r: Option<seq<(Value, Tree)>>)
    requires Shaped(data, labels) && |data| > 0 && feature < |data[0]| - 1
    requires forall c :: c in classes ==> c in Column(data, feature)
    ensures r.Some? ==> Keys(r.value) == classes
    decreases depth, 1, |classes|
  {
    if classes == [] then Some([])
    else
      PartitionShaped(data, labels, feature, classes[0]);
      match CreateTreeAsWritten(Partition(data, feature, classes[0]), labels, gain, depth)
      case None => None
      case Some(child) =>
        match ChildrenAsWritten(data, labels, gain, feature, classes[1..], depth)
        case None => None
        case Some(rest) =>
          var node := [(classes[0], child)] + rest;
          KeysCons(classes[0], child, rest);
          Some(node)
  }

  /** When the chosen feature is constant, its one value selects every row. */
  lemma StallKeepsAllRows(data: Data, labels: seq<string>, gain: (Data, nat) -> real)
    requires Buildable(data, labels) && !Pure(data) && Stalls(data, gain)
    ensures var feature := BestFeatureForSplit(data, gain);
      var classes := Distinct(Column(data, feature));
      |classes| == 1 && Partition(data, feature, classes[0]) == data
  {
    var feature := BestFeatureForSplit(data, gain);
    var column := Column(data, feature);
    var classes := Distinct(column);
    assert column[0] in classes;
    forall i | 0 <= i < |data|
      ensures data[i][feature] == classes[0]
    {
      assert column[i] in classes;
    }
    PartitionKeepsAll(data, feature, classes[0]);
  }

  /** A split whose children do not finish does not finish. */
  lemma UnfinishedChildren(data: Data, labels: seq<string>, gain: (Data, nat) -> real,
                           feature: nat, classes: seq<Value>, depth: Depth)
    requires Buildable(data, labels) && !Pure(data)
    requires feature == BestFeatureForSplit(data, gain) && classes == Distinct(Column(data, feature))
    requires ChildrenAsWritten(data, labels, gain, feature, classes, depth) == None
    ensures CreateTreeAsWritten(data, labels, gain, Deeper(depth)) == None
  {
    LeafIffPure(data);
  }

  /**
    The loop over the values of a constant feature stops at once when the subtree for
    all the rows does not finish.
   */
  lemma FirstChildUnfinished(data: Data, labels: seq<string>, gain: (Data, nat) -> real,
                             feature: nat, classes: seq<Value>, depth: Depth)
    requires Buildable(data, labels) && !Pure(data) && Stalls(data, gain)
    requires feature == BestFeatureForSplit(data, gain) && classes == Distinct(Column(data, feature))
    requires CreateTreeAsWritten(data, labels, gain, depth) == None
    ensures ChildrenAsWritten(data, labels, gain, feature, classes, depth) == None
  {
    StallKeepsAllRows(data, labels, gain);
  }

  /**
    An impure partition on which the chosen feature is constant is its own only
    partition: the source recurses on it for ever.
   */
  lemma {:induction false} StallDiverges(data: Data, labels: seq<string>, gain: (Data, nat) -> real, depth: Depth)
    requires Buildable(data, labels) && !Pure(data) && Stalls(data, gain)
    ensures CreateTreeAsWritten(data, labels, gain, depth) == None
    decreases depth
  {
    if depth.Deeper? {
      var feature := BestFeatureForSplit(data, gain);
      var classes := Distinct(Column(data, feature));
      StallDiverges(data, labels, gain, depth.below);
      FirstChildUnfinished(data, labels, gain, feature, classes, depth.below);
      UnfinishedChildren(data, labels, gain, feature, classes, depth.below);
    }
  }

  /**
    The subtrees listed for `classes` are, value by value, the model's trees of the
    matching partitions, and each of those partitions is decisive.
   */
  ghost predicate ChildrenMatch(data: Data, labels: seq<string>, gain: (Data, nat) -> real,
                                feature: nat, classes: seq<Value>, node: seq<(Value, Tree)>)
    requires Shaped(data, labels) && |data| > 0 && feature < |data[0]| - 1
  {
    && |node| == |classes|
    && forall i :: 0 <= i < |classes| ==>
      && Buildable(Partition(data, feature, classes[i]), labels)
      && Decisive(Partition(data, feature, classes[i]), labels, gain)
      && node[i] == (classes[i], Id3Tree(Partition(data, feature, classes[i]), labels, gain).value)
  }

  /** An impure partition whose children finish becomes a node named after the chosen feature. */
  lemma SplitAsWritten(data: Data, labels: seq<string>, gain: (Data, nat) -> real,
                       feature: nat, classes: seq<Value>, depth: Depth)
    requires Buildable(data, labels) && !Pure(data)
    requires feature == BestFeatureForSplit(data, gain) && classes == Distinct(Column(data, feature))
    requires ChildrenAsWritten(data, labels, gain, feature, classes, depth).Some?
    ensures CreateTreeAsWritten(data, labels, gain, Deeper(depth))
         == Some(Node(labels[feature], ChildrenAsWritten(data, labels, gain, feature, classes, depth).value))
  {
    LeafIffPure(data);
  }

  /** Children matching the model's, on a split of two or more values, are the model's node. */
  lemma MatchIsModel(data: Data, labels: seq<string>, gain: (Data, nat) -> real,
                     feature: nat, classes: seq<Value>, node: seq<(Value, Tree)>)
    requires Buildable(data, labels) && !Pure(data)
    requires feature == BestFeatureForSplit(data, gain) && classes == Distinct(Column(data, feature))
    requires |classes| >= 2
    requires ChildrenMatch(data, labels, gain, feature, classes, node)
    ensures Decisive(data, labels, gain)
    ensures Id3Tree(data, labels, gain) == Ok(Node(labels[feature], node))
  {
    SplitNode(data, labels, gain);
    assert node == Id3Tree(data, labels, gain).value.children;
  }

  /** A split whose children all finish and match the model's children finishes with the model's node. */
  lemma NodeStep(data: Data, labels: seq<string>, gain: (Data, nat) -> real,
                 feature: nat, classes: seq<Value>, depth: Depth)
    requires Buildable(data, labels) && !Pure(data)
    requires feature == BestFeatureForSplit(data, gain) && classes == Distinct(Column(data, feature))
    requires |classes| >= 2
    requires ChildrenAsWritten(data, labels, gain, feature, classes, depth).Some?
    requires ChildrenMatch(data, labels, gain, feature, classes, ChildrenAsWritten(data, labels, gain, feature, classes, depth).value)
    ensures Decisive(data, labels, gain)
    ensures CreateTreeAsWritten(data, labels, gain, Deeper(depth)) == Some(Id3Tree(data, labels, gain).value)
  {
    var node := ChildrenAsWritten(data, labels, gain, feature, classes, depth).value;
    SplitAsWritten(data, labels, gain, feature, classes, depth);
    MatchIsModel(data, labels, gain, feature, classes, node);
  }

  /** The loop's children are the first value's subtree followed by the rest of the loop's. */
  lemma ChildrenUnfold(data: Data, labels: seq<string>, gain: (Data, nat) -> real,
                       feature: nat, classes: seq<Value>, depth: Depth)
    requires Shaped(data, labels) && |data| > 0 && feature < |data[0]| - 1
    requires forall c :: c in classes ==> c in Column(data, feature)
    requires classes != [] && Buildable(Partition(data, feature, classes[0]), labels)
    requires CreateTreeAsWritten(Partition(data, feature, classes[0]), labels, gain, depth).Some?
    requires ChildrenAsWritten(data, labels, gain, feature, classes[1..], depth).Some?
    ensures ChildrenAsWritten(data, labels, gain, feature, classes, depth)
         == Some([(classes[0], CreateTreeAsWritten(Partition(data, feature, classes[0]), labels, gain, depth).value)]
                 + ChildrenAsWritten(data, labels, gain, feature, classes[1..], depth).value)
  {
  }

  /** Prepending the first value's subtree to matching children for the other values keeps them matching. */
  lemma MatchCons(data: Data, labels: seq<string>, gain: (Data, nat) -> real,
                  feature: nat, classes: seq<Value>, child: Tree, rest: seq<(Value, Tree)>)
    requires Shaped(data, labels) && |data| > 0 && feature < |data[0]| - 1 && classes != []
    requires Buildable(Partition(data, feature, classes[0]), labels)
    requires Decisive(Partition(data, feature, classes[0]), labels, gain)
    requires child == Id3Tree(Partition(data, feature, classes[0]), labels, gain).value
    requires ChildrenMatch(data, labels, gain, feature, classes[1..], rest)
    ensures ChildrenMatch(data, labels, gain, feature, classes, [(classes[0], child)] + rest)
  {
    var node := [(classes[0], child)] + rest;
    forall i | 0 < i < |classes|
      ensures Buildable(Partition(data, feature, classes[i]), labels)
      ensures Decisive(Partition(data, feature, classes[i]), labels, gain)
      ensures node[i] == (classes[i], Id3Tree(Partition(data, feature, classes[i]), labels, gain).value)
    {
      MatchAfterFirst(data, labels, gain, feature, classes, child, rest, i);
    }
  }

  /** The `i`-th of the prepended children is the `i - 1`-th of the others. */
  lemma MatchAfterFirst(data: Data, labels: seq<string>, gain: (Data, nat) -> real,
                        feature: nat, classes: seq<Value>, child: Tree, rest: seq<(Value, Tree)>, i: nat)
    requires Shaped(data, labels) && |data| > 0 && feature < |data[0]| - 1 && 0 < i < |classes|
    requires ChildrenMatch(data, labels, gain, feature, classes[1..], rest)
    ensures Buildable(Partition(data, feature, classes[i]), labels)
    ensures Decisive(Partition(data, feature, classes[i]), labels, gain)
    ensures ([(classes[0], child)] + rest)[i] == (classes[i], Id3Tree(Partition(data, feature, classes[i]), labels, gain).value)
  {
    assert classes[1..][i - 1] == classes[i];
  }

  /** What the source builds, when it finishes, is what the guarded model builds, and the input is decisive. */
  lemma {:induction false} AsWrittenAgrees(data: Data, labels: seq<string>, gain: (Data, nat) -> real, depth: Depth)
    requires Buildable(data, labels)
    ensures CreateTreeAsWritten(data, labels, gain, depth).Some? ==>
      && Decisive(data, labels, gain)
      && Id3Tree(data, labels, gain) == Ok(CreateTreeAsWritten(data, labels, gain, depth).value)
    decreases depth, 0
  {
    if depth.Deeper? && !Pure(data) {
      var feature := BestFeatureForSplit(data, gain);
      var classes := Distinct(Column(data, feature));
      if |classes| < 2 {
        StallDiverges(data, labels, gain, depth);
      } else {
        ChildrenAgree(data, labels, gain, feature, classes, depth.below);
        if ChildrenAsWritten(data, labels, gain, feature, classes, depth.below).Some? {
          NodeStep(data, labels, gain, feature, classes, depth.below);
        } else {
          UnfinishedChildren(data, labels, gain, feature, classes, depth.below);
        }
      }
    }
  }

  lemma {:induction false} ChildrenAgree(data: Data, labels: seq<string>, gain: (Data, nat) -> real,
                                         feature: nat, classes: seq<Value>, depth: Depth)
    requires Shaped(data, labels) && |data| > 0 && feature < |data[0]| - 1
    requires forall c :: c in classes ==> c in Column(data, feature)
    ensures ChildrenAsWritten(data, labels, gain, feature, classes, depth).Some? ==>
      ChildrenMatch(data, labels, gain, feature, classes, ChildrenAsWritten(data, labels, gain, feature, classes, depth).value)
    decreases depth, 1, |classes|
  {
    if classes != [] && ChildrenAsWritten(data, labels, gain, feature, classes, depth).Some? {
      var first := Partition(data, feature, classes[0]);
      PartitionShaped(data, labels, feature, classes[0]);
      AsWrittenAgrees(first, labels, gain, depth);
      ChildrenAgree(data, labels, gain, feature, classes[1..], depth);
      var child := CreateTreeAsWritten(first, labels, gain, depth);
      var rest := ChildrenAsWritten(data, labels, gain, feature, classes[1..], depth);
      assert child.Some? && rest.Some?;
      ChildrenUnfold(data, labels, gain, feature, classes, depth);
      MatchCons(data, labels, gain, feature, classes, child.value, rest.value);
    }
  }

  /** The partitions of a decisive, impure input are decisive and smaller. */
  lemma DecisiveChildren(data: Data, labels: seq<string>, gain: (Data, nat) -> real)
    requires Buildable(data, labels) && Decisive(data, labels, gain) && !Pure(data)
    ensures var feature := BestFeatureForSplit(data, gain);
      var classes := Distinct(Column(data, feature));
      && |classes| >= 2
      && forall i :: 0 <= i < |classes| ==>
        && Buildable(Partition(data, feature, classes[i]), labels)
        && Decisive(Partition(data, feature, classes[i]), labels, gain)
        && |Partition(data, feature, classes[i])| < |data|
  {
  }

  /**
    On a decisive input the source finishes, given one nested call per row, and builds
    the model's tree.
   */
  lemma {:induction false} DecisiveFinishes(data: Data, labels: seq<string>, gain: (Data, nat) -> real, depth: Depth)
    requires Buildable(data, labels) && Decisive(data, labels, gain) && Levels(depth) > |data|
    ensures CreateTreeAsWritten(data, labels, gain, depth) == Some(Id3Tree(data, labels, gain).value)
    decreases |data|, 1
  {
    if !Pure(data) {
      var feature := BestFeatureForSplit(data, gain);
      var classes := Distinct(Column(data, feature));
      DecisiveChildren(data, labels, gain);
      ChildrenFinish(data, labels, gain, feature, classes, depth.below);
      NodeStep(data, labels, gain, feature, classes, depth.below);
    }
  }

  lemma {:induction false} ChildrenFinish(data: Data, labels: seq<string>, gain: (Data, nat) -> real,
                                          feature: nat, classes: seq<Value>, depth: Depth)
    requires Shaped(data, labels) && |data| > 0 && feature < |data[0]| - 1 && |data| <= Levels(depth)
    requires forall c :: c in classes ==> c in Column(data, feature)
    requires forall i :: 0 <= i < |classes| ==>
      && Buildable(Partition(data, feature, classes[i]), labels)
      && Decisive(Partition(data, feature, classes[i]), labels, gain)
      && |Partition(data, feature, classes[i])| < |data|
    ensures ChildrenAsWritten(data, labels, gain, feature, classes, depth).Some?
    ensures ChildrenMatch(data, labels, gain, feature, classes, ChildrenAsWritten(data, labels, gain, feature, classes, depth).value)
    decreases |data|, 0, |classes|
  {
    if classes != [] {
      var first := Partition(data, feature, classes[0]);
      DecisiveFinishes(first, labels, gain, depth);
      ChildrenFinish(data, labels, gain, feature, classes[1..], depth);
      var rest := ChildrenAsWritten(data, labels, gain, feature, classes[1..], depth).value;
      ChildrenUnfold(data, labels, gain, feature, classes, depth);
      MatchCons(data, labels, gain, feature, classes, Id3Tree(first, labels, gain).value, rest);
    }
  }

  /**
    `create_tree` as written returns, given a deep enough recursion limit, exactly on
    decisive inputs.
   */
  lemma FinishesIffDecisive(data: Data, labels: seq<string>, gain: (Data, nat) -> real)
    requires Buildable(data, labels)
    ensures Decisive(data, labels, gain) <==> exists depth :: CreateTreeAsWritten(data, labels, gain, depth).Some?
  {
    if Decisive(data, labels, gain) {
      DecisiveFinishes(data, labels, gain, DepthOf(|data| + 1));
    }
    forall depth | CreateTreeAsWritten(data, labels, gain, depth).Some?
      ensures Decisive(data, labels, gain)
    {
      AsWrittenAgrees(data, labels, gain, depth);
    }
  }

  /** Both labels of the two-row example occur once; `most_common` keeps the first, `False`. */
  lemma TieKeepsFirst()
    ensures PotentialLeafNode([[Int(0), Bool(false)], [Int(0), Bool(true)]]) == (Bool(false), 1)
  {
    var data := [[Int(0), Bool(false)], [Int(0), Bool(true)]];
    var labels := ClassLabels(data);
    assert labels == [Bool(false), Bool(true)];
    assert labels[..1] == [Bool(false)];
    assert Distinct(labels[..1]) == [Bool(false)];
    assert Distinct(labels) == [Bool(false), Bool(true)];
    assert multiset(labels)[Bool(false)] == 1;
    assert multiset(labels)[Bool(true)] == 1;
    assert LabelCounts(labels) == [1.0, 1.0];
  }

  /**
    The smallest input on which the source does not finish: one feature column that
    is constant, and two different labels. The guarded model returns the majority
    label, `False` (the first of the two equally frequent labels).
   */
  lemma ConstantColumnDiverges(gain: (Data, nat) -> real, depth: Depth)
    ensures var data := [[Int(0), Bool(false)], [Int(0), Bool(true)]];
      && Buildable(data, ["x"])
      && CreateTreeAsWritten(data, ["x"], gain, depth) == None
      && Id3Tree(data, ["x"], gain) == Ok(Leaf(Bool(false)))
  {
    var data := [[Int(0), Bool(false)], [Int(0), Bool(true)]];
    ConstantColumnStalls(gain);
    StallDiverges(data, ["x"], gain, depth);
    TieKeepsFirst();
  }

  /** In the two-row example the only feature is chosen, and it takes one value. */
  lemma ConstantColumnStalls(gain: (Data, nat) -> real)
    ensures var data := [[Int(0), Bool(false)], [Int(0), Bool(true)]];
      Buildable(data, ["x"]) && !Pure(data) && Stalls(data, gain)
  {
    var data := [[Int(0), Bool(false)], [Int(0), Bool(true)]];
    assert LabelOf(data[1]) != LabelOf(data[0]);
    assert BestFeatureForSplit(data, gain) == 0;
    var column := Column(data, 0);
    assert column == [Int(0), Int(0)];
    assert column[..1] == [Int(0)];
    assert Distinct(column) == [Int(0)];
  }
}
