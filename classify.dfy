/**
  `classify`: walking a tree with an example. At each node the example's value of the
  node's feature (found by the first position of the feature's name among the labels)
  selects the child whose key equals it; a leaf child gives the answer, a node child is
  walked in turn, and no matching key gives `None`.
 */
module Classification {
  import opened Outcomes
  import opened Values
  import opened Dataset
  import opened Selection
  import opened Trees
  import opened Build
  import opened SourceRecursion

  /** The position of the first child whose key equals `v`: the `for k in node.keys()` search. */
  function FindKey(children: seq<(Value, Tree)>, v: Value): (r: Option<nat>)
    ensures r.None? <==> v !in Keys(children)
    ensures r.Some? ==> r.value < |children| && children[r.value].0 == v
    ensures r.Some? ==> forall j :: 0 <= j < r.value ==> children[j].0 != v
  {
    if children == [] then None
    else
      assert Keys(children) == [children[0].0] + Keys(children[1..]);
      if children[0].0 == v then Some(0)
      else match FindKey(children[1..], v)
      case None => None
      case Some(i) => Some(i + 1)
  }

  /**
    `classify(tree, label, data)`. `Err(NotANode)` is the `AttributeError` of a bare
    label given as the tree, `Err(UnknownFeature)` the `ValueError` of a name missing
    from the labels, `Err(ExampleTooShort)` the `IndexError` of an example without a
    value at the feature's position; `Ok(None)` is the implicit `None` when no key matches.
   */
  function Classify(t: Tree, labels: seq<string>, example: Row): (r: Result<Option<Value>>)
    ensures r == Err(NotANode) <==> t.Leaf?
    ensures r == Err(UnknownFeature) ==> !NamesIn(t, labels)
    ensures r.Ok? && r.value.Some? ==> HasLeaf(t, r.value.value)
    ensures t.Node? && NamesIn(t, labels) && |example| >= |labels| ==> r.Ok?
    ensures r.Err? ==> r.error == NotANode || r.error == UnknownFeature || r.error == ExampleTooShort
  {
    match t
    case Leaf(_) => Err(NotANode)
    case Node(name, children) =>
      match IndexOf(labels, name)
      case None => Err(UnknownFeature)
      case Some(index) =>
        if children == [] then Ok(None)
        else if index >= |example| then Err(ExampleTooShort)
        else
          match FindKey(children, example[index])
          case None => Ok(None)
          case Some(i) =>
            assert children[i] in children;
            match children[i].1
            case Leaf(l) => Ok(Some(l))
            case Node(_, _) => Classify(children[i].1, labels, example)
  }

  /** When no two features share a name, `label.index` finds the column a node was split on. */
  lemma IndexOfDistinct(labels: seq<string>, k: nat)
    requires NoDuplicates(labels) && k < |labels|
    ensures IndexOf(labels, labels[k]) == Some(k)
  {
  }

  /** One step of the walk: the selected child's label, or the walk of the selected child. */
  lemma ClassifyStep(t: Tree, labels: seq<string>, example: Row, index: nat, k: nat)
    requires t.Node? && IndexOf(labels, t.feature) == Some(index) && t.children != []
    requires index < |example| && FindKey(t.children, example[index]) == Some(k)
    ensures Classify(t, labels, example)
         == if t.children[k].1.Leaf? then Ok(Some(t.children[k].1.category))
            else Classify(t.children[k].1, labels, example)
  {
  }

  /**
    The walk ends at a node that has no child for the example's value: its dict is empty,
    or no key equals the value, or the key found leads to a node whose walk ends so.
   */
  ghost predicate EndsUnmatched(t: Tree, labels: seq<string>, example: Row)
  {
    match t
    case Leaf(_) => false
    case Node(name, children) =>
      match IndexOf(labels, name)
      case None => false
      case Some(index) =>
        || children == []
        || (index < |example| &&
            match FindKey(children, example[index])
            case None => true
            case Some(i) =>
              assert children[i] in children;
              EndsUnmatched(children[i].1, labels, example))
  }

  /** A node whose keys miss the example's value classifies it as `None`. */
  lemma ClassifyNoMatch(t: Tree, labels: seq<string>, example: Row, index: nat)
    requires t.Node? && IndexOf(labels, t.feature) == Some(index)
    requires index < |example| && example[index] !in Keys(t.children)
    ensures Classify(t, labels, example) == Ok(None)
  {
  }

  /** `classify` returns `None` exactly when the walk ends at a node without a matching key. */
  lemma {:induction false} ClassifyNoneIff(t: Tree, labels: seq<string>, example: Row)
    ensures Classify(t, labels, example) == Ok(None) <==> EndsUnmatched(t, labels, example)
  {
    match t
    case Leaf(_) =>
    case Node(name, children) =>
      match IndexOf(labels, name)
      case None =>
      case Some(index) =>
        if children != [] && index < |example| {
          match FindKey(children, example[index])
          case None =>
          case Some(i) =>
            assert children[i] in children;
            if children[i].1.Node? {
              ClassifyNoneIff(children[i].1, labels, example);
            }
        }
  }

  /** An example whose value at the node's feature is no key: `classify` gives `None`. */
  lemma UnmatchedExample()
    ensures Classify(Node("y", [(Int(0), Leaf(Bool(false))), (Int(1), Leaf(Bool(true)))]),
                     ["x", "y"], [Int(1), Int(2)]) == Ok(None)
  {
    assert IndexOf(["x", "y"], "y") == Some(1);
    assert FindKey([(Int(0), Leaf(Bool(false))), (Int(1), Leaf(Bool(true)))], Int(2)) == None;
  }

  /**
    The key a training row selects at the root of an impure, non-stalling partition is the
    row's own value of the chosen feature, and the child under it is the tree of a
    partition holding the row.
   */
  lemma ChildForRow(data: Data, labels: seq<string>, gain: (Data, nat) -> real, row: Row)
    requires Buildable(data, labels) && !Pure(data) && !Stalls(data, gain)
    requires row in data
    ensures var feature := BestFeatureForSplit(data, gain);
      var classes := Distinct(Column(data, feature));
      var t := Id3Tree(data, labels, gain).value;
      var k := FindKey(t.children, row[feature]);
      && t.Node? && t.feature == labels[feature] && t.children != []
      && k.Some? && k.value < |classes|
      && var part := Partition(data, feature, classes[k.value]);
         && Buildable(part, labels) && |part| < |data| && row in part
         && t.children[k.value].1 == Id3Tree(part, labels, gain).value
  {
    var feature := BestFeatureForSplit(data, gain);
    var classes := Distinct(Column(data, feature));
    var t := Id3Tree(data, labels, gain).value;
    SplitNode(data, labels, gain);
    var m :| 0 <= m < |data| && data[m] == row;
    assert Column(data, feature)[m] == row[feature];
    assert row[feature] in Keys(t.children);
    var k := FindKey(t.children, row[feature]).value;
    ChildOfNode(data, labels, gain, k);
  }

  /**
    A tree built from consistent training data classifies each training row as labelled:
    when the builder finishes (`Decisive`) and the feature names are distinct, classifying
    the features of a row yields the row's label. A pure training set gives a bare label,
    which `classify` cannot walk.
   */
  lemma {:induction false} TrainingConsistency(data: Data, labels: seq<string>, gain: (Data, nat) -> real, row: Row)
    requires Buildable(data, labels) && Decisive(data, labels, gain) && NoDuplicates(labels)
    requires row in data
    ensures var c := Classify(Id3Tree(data, labels, gain).value, labels, row[..|row| - 1]);
      if Pure(data) then c == Err(NotANode) else c == Ok(Some(LabelOf(row)))
    decreases |data|
  {
    if !Pure(data) {
      var feature := BestFeatureForSplit(data, gain);
      var classes := Distinct(Column(data, feature));
      var t := Id3Tree(data, labels, gain).value;
      var example := row[..|row| - 1];
      ChildForRow(data, labels, gain, row);
      IndexOfDistinct(labels, feature);
      var m :| 0 <= m < |data| && data[m] == row;
      assert example[feature] == row[feature];
      var k := FindKey(t.children, row[feature]).value;
      var part := Partition(data, feature, classes[k]);
      ClassifyStep(t, labels, example, feature, k);
      DecisiveChildren(data, labels, gain);
      assert Decisive(part, labels, gain);
      DecisiveLeafIffPure(part, labels, gain);
      if Pure(part) {
        var j :| 0 <= j < |part| && part[j] == row;
        assert LabelOf(row) == LabelOf(part[0]);
      } else {
        TrainingConsistency(part, labels, gain, row);
      }
    }
  }

  /**
    The same for the tree the source returns: whenever `create_tree` as written finishes,
    its tree classifies every training row as labelled, and a pure training set gives a
    bare label that `classify` cannot walk.
   */
  lemma AsWrittenConsistency(data: Data, labels: seq<string>, gain: (Data, nat) -> real, depth: Depth, row: Row)
    requires Buildable(data, labels) && NoDuplicates(labels)
    requires CreateTreeAsWritten(data, labels, gain, depth).Some?
    requires row in data
    ensures var c := Classify(CreateTreeAsWritten(data, labels, gain, depth).value, labels, row[..|row| - 1]);
      if Pure(data) then c == Err(NotANode) else c == Ok(Some(LabelOf(row)))
  {
    AsWrittenAgrees(data, labels, gain, depth);
    TrainingConsistency(data, labels, gain, row);
  }
}
