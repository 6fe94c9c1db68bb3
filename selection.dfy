/**
  Choosing a leaf label and a split feature: both are Python `max` with a key
  (`Counter.most_common(1)` is one as well), which keeps the first of several
  greatest elements.
 */
module Selection {
  import opened Values
  import opened Dataset

  /** The index `max(enumerate(scores), key=itemgetter(1))` picks: the first greatest score. */
  function FirstMax(scores: seq<real>): (k: nat)
    requires |scores| > 0
    ensures k < |scores|
    ensures forall j :: 0 <= j < |scores| ==> scores[j] <= scores[k]
    ensures forall j :: 0 <= j < k ==> scores[j] < scores[k]
    decreases |scores|
  {
    if |scores| == 1 then 0
    else
      var k := FirstMax(scores[..|scores| - 1]);
      if scores[|scores| - 1] > scores[k] then |scores| - 1 else k
  }

  /** `Counter(labels)` lists its keys by first occurrence; these are their counts, as scores. */
  function LabelCounts(labels: seq<Value>): seq<real>
  {
    var keys := Distinct(labels);
    seq(|keys|, j requires 0 <= j < |keys| => multiset(labels)[keys[j]] as real)
  }

  /**
    `Counter([i[-1] for i in data]).most_common(1)[0]`: a most frequent class label with
    its number of occurrences.
   */
  function PotentialLeafNode(data: Data): (top: (Value, nat))
    requires |data| > 0 && forall i :: 0 <= i < |data| ==> |data[i]| > 0
    ensures top.0 in ClassLabels(data)
    ensures top.1 == multiset(ClassLabels(data))[top.0]
    ensures forall v :: multiset(ClassLabels(data))[v] <= top.1
  {
    var labels := ClassLabels(data);
    var keys := Distinct(labels);
    assert labels[0] in keys;
    var k := FirstMax(LabelCounts(labels));
    FirstMaxCountIsGreatest(labels, k);
    (keys[k], multiset(labels)[keys[k]])
  }

  /** The key with the greatest score in `LabelCounts` occurs at least as often as any value. */
  lemma FirstMaxCountIsGreatest(labels: seq<Value>, k: nat)
    requires |LabelCounts(labels)| > 0 && k == FirstMax(LabelCounts(labels))
    ensures k < |Distinct(labels)|
    ensures forall v :: multiset(labels)[v] <= multiset(labels)[Distinct(labels)[k]]
  {
    var keys := Distinct(labels);
    var counts := LabelCounts(labels);
    forall v
      ensures multiset(labels)[v] <= multiset(labels)[keys[k]]
    {
      if v in labels {
        var j :| 0 <= j < |keys| && keys[j] == v;
        assert counts[j] <= counts[k];
      }
    }
  }

  /**
    On a tie the label that occurs first wins: every row whose label is as frequent as
    the chosen one is at or after the first occurrence of the chosen label.
   */
  lemma {:induction false} MostCommonFirstSeen(data: Data, i: nat)
    requires |data| > 0 && forall r :: 0 <= r < |data| ==> |data[r]| > 0
    requires i < |data|
    requires multiset(ClassLabels(data))[LabelOf(data[i])] == PotentialLeafNode(data).1
    ensures PotentialLeafNode(data).0 in ClassLabels(data)[..i + 1]
  {
    var labels := ClassLabels(data);
    var keys := Distinct(labels);
    var counts := LabelCounts(labels);
    var k := FirstMax(counts);
    assert PotentialLeafNode(data).0 == keys[k];
    var before := Distinct(labels[..i + 1]);
    DistinctPrefix(labels, i + 1);
    assert labels[i] in labels[..i + 1];
    assert labels[i] in before;
    var m :| 0 <= m < |before| && before[m] == labels[i];
    assert keys[m] == labels[i];
    assert counts[m] == counts[k];
    assert k <= m;
    assert keys[k] == before[k];
  }

  /**
    `best_feature_for_split`: the index of the first feature column whose information
    gain is greatest. `gain(data, f)` stands for `entropy(data) - feature_entropy(f)`.
   */
  function BestFeatureForSplit(data: Data, gain: (Data, nat) -> real): (f: nat)
    requires |data| > 0 && |data[0]| >= 2
    ensures f < |data[0]| - 1
    ensures forall g :: 0 <= g < |data[0]| - 1 ==> gain(data, g) <= gain(data, f)
    ensures forall g :: 0 <= g < f ==> gain(data, g) < gain(data, f)
  {
    var features := |data[0]| - 1;
    var informationGain := seq(features, g requires 0 <= g < features => gain(data, g));
    var best := FirstMax(informationGain);
    assert forall g :: 0 <= g < features ==> informationGain[g] == gain(data, g);
    best
  }
}
