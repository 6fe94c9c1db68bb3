/**
  The decision tree. The source represents a leaf by the bare class label and an
  internal node by `{feature_label: {value: child, ...}}`; here the two cases are
  tagged, and the inner dictionary is a sequence of (value, child) entries in the
  dictionary's iteration order.
 */
module Trees {
  import opened Outcomes
  import opened Values

  datatype Tree =
    | Leaf(category: Value)
    | Node(feature: string, children: seq<(Value, Tree)>)

  /** `node.keys()`, in order. */
  function Keys(children: seq<(Value, Tree)>): seq<Value>
  {
    seq(|children|, i requires 0 <= i < |children| => children[i].0)
  }

  /** Adding an entry in front adds its key in front. */
  lemma KeysCons(key: Value, child: Tree, rest: seq<(Value, Tree)>)
    ensures Keys([(key, child)] + rest) == [key] + Keys(rest)
  {
    var node := [(key, child)] + rest;
    assert forall i :: 1 <= i < |node| ==> node[i] == rest[i - 1];
  }

  /** Some leaf of `t` holds `l`. */
  ghost predicate HasLeaf(t: Tree, l: Value)
  {
    match t
    case Leaf(x) => x == l
    case Node(_, children) => exists i :: 0 <= i < |children| && HasLeaf(children[i].1, l)
  }

  /** Every internal node of `t` is named by an element of `labels`. */
  ghost predicate NamesIn(t: Tree, labels: seq<string>)
  {
    match t
    case Leaf(_) => true
    case Node(name, children) =>
      name in labels && forall i :: 0 <= i < |children| ==> NamesIn(children[i].1, labels)
  }

  /** `label.index(name)`: the first position of `name`, or `None` where Python raises `ValueError`. */
  function IndexOf(labels: seq<string>, name: string): (r: Option<nat>)
    ensures r.None? <==> name !in labels
    ensures r.Some? ==> r.value < |labels| && labels[r.value] == name
    ensures r.Some? ==> forall j :: 0 <= j < r.value ==> labels[j] != name
  {
    if labels == [] then None
    else if labels[0] == name then Some(0)
    else
      match IndexOf(labels[1..], name)
      case None => None
      case Some(i) => Some(i + 1)
  }
}
