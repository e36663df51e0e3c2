/** The exported gradient-boosted model (ml/bf_model.py:78-135): array-encoded trees become node
    lists, and a prediction walks each list by index.  Floats are `real`; the logistic function is
    a parameter.
 */
module BoostedTrees {
  import opened Wrappers

  /** scikit-learn's parallel arrays; feature -2 marks a leaf. */
  datatype TreeArrays = TreeArrays(feature: seq<int>, threshold: seq<real>,
                                   left: seq<int>, right: seq<int>, value: seq<real>)

  datatype Node = Node(feature: int, threshold: Option<real>, left: int, right: int, value: Option<real>)

  datatype Model = Model(featureNames: seq<string>, learningRate: real, initScore: real, trees: seq<seq<Node>>)

  ghost predicate SameLengths(t: TreeArrays) {
    |t.feature| == |t.threshold| == |t.left| == |t.right| == |t.value|
  }

  /** Children come later in the arrays, and inner nodes test one of nf features. */
  ghost predicate WellFormed(t: TreeArrays, nf: nat) {
    && SameLengths(t) && |t.feature| > 0
    && forall i :: 0 <= i < |t.feature| && t.feature[i] != -2 ==>
         0 <= t.feature[i] < nf && i < t.left[i] < |t.feature| && i < t.right[i] < |t.feature|
  }

  function ExportNode(t: TreeArrays, i: nat): Node
    requires SameLengths(t) && i < |t.feature|
  {
    if t.feature[i] == -2 then Node(-1, None, -1, -1, Some(t.value[i]))
    else Node(t.feature[i], Some(t.threshold[i]), t.left[i], t.right[i], None)
  }

  method TreeToNodes(t: TreeArrays) returns (nodes: seq<Node>)
    requires SameLengths(t)
    ensures |nodes| == |t.feature| && forall i :: 0 <= i < |nodes| ==> nodes[i] == ExportNode(t, i)
  {
    nodes := [];
    for i := 0 to |t.feature|
      invariant |nodes| == i && forall j :: 0 <= j < i ==> nodes[j] == ExportNode(t, j)
    {
      if t.feature[i] == -2 {
        nodes := nodes + [Node(-1, None, -1, -1, Some(t.value[i]))];
      } else {
        nodes := nodes + [Node(t.feature[i], Some(t.threshold[i]), t.left[i], t.right[i], None)];
      }
    }
  }

  /** A node list on which the index walk is defined and terminates. */
  ghost predicate Walkable(nodes: seq<Node>, nf: nat) {
    && |nodes| > 0
    && forall i :: 0 <= i < |nodes| ==>
         if nodes[i].feature == -1 then nodes[i].value.Some?
         else 0 <= nodes[i].feature < nf && nodes[i].threshold.Some?
              && i < nodes[i].left < |nodes| && i < nodes[i].right < |nodes|
  }

  /** The leaf the walk from i stops at. */
  ghost function Walk(nodes: seq<Node>, x: seq<real>, i: nat): (leaf: nat)
    requires Walkable(nodes, |x|) && i < |nodes|
    ensures leaf < |nodes| && nodes[leaf].feature == -1
    decreases |nodes| - i
  {
    var n := nodes[i];
    if n.feature == -1 then i
    else Walk(nodes, x, if x[n.feature] <= n.threshold.value then n.left else n.right)
  }

  ghost predicate Usable(model: Model) {
    forall k :: 0 <= k < |model.trees| ==> Walkable(model.trees[k], |model.featureNames|)
  }

  ghost predicate Covers(names: seq<string>, features: map<string, real>) {
    forall k :: 0 <= k < |names| ==> names[k] in features
  }

  // ----- the decision trees the nodes denote -----

  datatype DecisionTree =
    | Leaf(leafValue: real)
    | Split(feature: string, threshold: real, low: DecisionTree, high: DecisionTree)

  ghost predicate Asks(d: DecisionTree, features: map<string, real>) {
    d.Split? ==> d.feature in features && Asks(d.low, features) && Asks(d.high, features)
  }

  /** A split sends an example low exactly when its feature, looked up by name, is at most the threshold. */
  ghost function Evaluate(d: DecisionTree, features: map<string, real>): real
    requires Asks(d, features)
  {
    match d
    case Leaf(v) => v
    case Split(f, t, low, high) => if features[f] <= t then Evaluate(low, features) else Evaluate(high, features)
  }

  ghost function NodeTree(nodes: seq<Node>, names: seq<string>, i: nat): (d: DecisionTree)
    requires Walkable(nodes, |names|) && i < |nodes|
    ensures forall features: map<string, real> :: Covers(names, features) ==> Asks(d, features)
    decreases |nodes| - i
  {
    var n := nodes[i];
    if n.feature == -1 then Leaf(n.value.value)
    else Split(names[n.feature], n.threshold.value, NodeTree(nodes, names, n.left), NodeTree(nodes, names, n.right))
  }

  ghost function TreeSum(trees: seq<seq<Node>>, names: seq<string>, features: map<string, real>): real
    requires Covers(names, features) && forall k :: 0 <= k < |trees| ==> Walkable(trees[k], |names|)
  {
    if trees == [] then 0.0 else
      TreeSum(trees[..|trees| - 1], names, features) + Evaluate(NodeTree(trees[|trees| - 1], names, 0), features)
  }

  /** The additive model: initial score plus learning rate times the sum of the trees. */
  ghost function Boosted(init: real, rate: real, leaves: real): real {
    init + rate * leaves
  }

  lemma {:induction false} BoostedStep(init: real, rate: real, leaves: real, leaf: real)
    ensures Boosted(init, rate, leaves) + rate * leaf == Boosted(init, rate, leaves + leaf)
  {
  }

  ghost function RawScore(features: map<string, real>, model: Model): real
    requires Usable(model) && Covers(model.featureNames, features)
  {
    Boosted(model.initScore, model.learningRate, TreeSum(model.trees, model.featureNames, features))
  }

  // ----- prediction -----

  function FeatureVector(features: map<string, real>, names: seq<string>): seq<real>
    requires Covers(names, features)
  {
    seq(|names|, k requires 0 <= k < |names| => features[names[k]])
  }

  /** The index walk over the feature vector reaches the value of the tree evaluated by name. */
  lemma {:induction false} WalkMatchesTree(nodes: seq<Node>, names: seq<string>, features: map<string, real>, i: nat)
    requires Walkable(nodes, |names|) && Covers(names, features) && i < |nodes|
    ensures nodes[Walk(nodes, FeatureVector(features, names), i)].value
         == Some(Evaluate(NodeTree(nodes, names, i), features))
    decreases |nodes| - i
  {
    var n := nodes[i];
    if n.feature == -1 {
    } else {
      var low := features[names[n.feature]] <= n.threshold.value;
      WalkMatchesTree(nodes, names, features, if low then n.left else n.right);
    }
  }

  /** The walk of predict_from_json over one tree. */
  method WalkTree(nodes: seq<Node>, x: seq<real>) returns (idx: nat)
    requires Walkable(nodes, |x|)
    ensures idx == Walk(nodes, x, 0)
  {
    idx := 0;
    while nodes[idx].feature != -1
      invariant idx < |nodes| && Walk(nodes, x, idx) == Walk(nodes, x, 0)
      decreases |nodes| - idx
    {
      var n := nodes[idx];
      idx := if x[n.feature] <= n.threshold.value then n.left else n.right;
    }
  }

  method PredictFromJson(sigmoid: real -> real, features: map<string, real>, model: Model) returns (p: real)
    requires Usable(model) && Covers(model.featureNames, features)
    ensures p == sigmoid(RawScore(features, model))
  {
    ghost var names := model.featureNames;
    var x := FeatureVector(features, model.featureNames);
    var score := model.initScore;
    for k := 0 to |model.trees|
      invariant score == Boosted(model.initScore, model.learningRate, TreeSum(model.trees[..k], names, features))
    {
      var nodes := model.trees[k];
      var idx := WalkTree(nodes, x);
      WalkMatchesTree(nodes, names, features, 0);
      assert model.trees[..k + 1][..k] == model.trees[..k];
      var leaf := nodes[idx].value.value;
      BoostedStep(model.initScore, model.learningRate, TreeSum(model.trees[..k], names, features), leaf);
      score := score + model.learningRate * leaf;
    }
    assert model.trees[..|model.trees|] == model.trees;
    assert score == RawScore(features, model);
    p := sigmoid(score);
  }

  // ----- the model the arrays denote -----

  ghost function Unfold(t: TreeArrays, names: seq<string>, i: nat): (d: DecisionTree)
    requires WellFormed(t, |names|) && i < |t.feature|
    ensures forall features: map<string, real> :: Covers(names, features) ==> Asks(d, features)
    decreases |t.feature| - i
  {
    if t.feature[i] == -2 then Leaf(t.value[i])
    else Split(names[t.feature[i]], t.threshold[i], Unfold(t, names, t.left[i]), Unfold(t, names, t.right[i]))
  }

  ghost predicate Exports(nodes: seq<Node>, t: TreeArrays) {
    SameLengths(t) && |nodes| == |t.feature| && forall i :: 0 <= i < |nodes| ==> nodes[i] == ExportNode(t, i)
  }

  lemma {:induction false} ExportIsWalkable(nodes: seq<Node>, t: TreeArrays, nf: nat)
    requires WellFormed(t, nf) && Exports(nodes, t)
    ensures Walkable(nodes, nf)
  {
  }

  /** The exported nodes denote the tree the arrays denote. */
  lemma {:induction false} ExportKeepsTree(nodes: seq<Node>, t: TreeArrays, names: seq<string>, i: nat)
    requires WellFormed(t, |names|) && Exports(nodes, t) && Walkable(nodes, |names|) && i < |nodes|
    ensures NodeTree(nodes, names, i) == Unfold(t, names, i)
    decreases |nodes| - i
  {
    if t.feature[i] == -2 {
    } else {
      ExportKeepsTree(nodes, t, names, t.left[i]);
      ExportKeepsTree(nodes, t, names, t.right[i]);
    }
  }

  ghost function ForestSum(forest: seq<TreeArrays>, names: seq<string>, features: map<string, real>): real
    requires Covers(names, features) && forall k :: 0 <= k < |forest| ==> WellFormed(forest[k], |names|)
  {
    if forest == [] then 0.0 else
      ForestSum(forest[..|forest| - 1], names, features) + Evaluate(Unfold(forest[|forest| - 1], names, 0), features)
  }

  lemma {:induction false} TreeSumMatchesForest(
    trees: seq<seq<Node>>, forest: seq<TreeArrays>, names: seq<string>, features: map<string, real>)
    requires Covers(names, features) && |trees| == |forest|
    requires forall k :: 0 <= k < |forest| ==>
      WellFormed(forest[k], |names|) && Exports(trees[k], forest[k]) && Walkable(trees[k], |names|)
    ensures TreeSum(trees, names, features) == ForestSum(forest, names, features)
  {
    if trees == [] {
    } else {
      var k := |trees| - 1;
      TreeSumMatchesForest(trees[..k], forest[..k], names, features);
      ExportKeepsTree(trees[k], forest[k], names, 0);
    }
  }

  method ExportTrees(forest: seq<TreeArrays>) returns (trees: seq<seq<Node>>)
    requires forall k :: 0 <= k < |forest| ==> SameLengths(forest[k])
    ensures |trees| == |forest| && forall k :: 0 <= k < |forest| ==> Exports(trees[k], forest[k])
  {
    trees := [];
    for k := 0 to |forest|
      invariant |trees| == k && forall j :: 0 <= j < k ==> Exports(trees[j], forest[j])
    {
      var nodes := TreeToNodes(forest[k]);
      trees := trees + [nodes];
    }
  }

  /** Exporting a well-formed forest gives a usable model whose raw score is the initial score plus
      the learning rate times what the decision trees themselves, asking features by name, evaluate to. */
  lemma {:induction false} ExportPreservesModel(forest: seq<TreeArrays>, model: Model, features: map<string, real>)
    requires |model.trees| == |forest| && Covers(model.featureNames, features)
    requires forall k :: 0 <= k < |forest| ==>
      WellFormed(forest[k], |model.featureNames|) && Exports(model.trees[k], forest[k])
    ensures Usable(model)
    ensures RawScore(features, model)
         == model.initScore + model.learningRate * ForestSum(forest, model.featureNames, features)
  {
    forall k | 0 <= k < |forest| ensures Walkable(model.trees[k], |model.featureNames|) {
      ExportIsWalkable(model.trees[k], forest[k], |model.featureNames|);
    }
    TreeSumMatchesForest(model.trees, forest, model.featureNames, features);
  }
}
