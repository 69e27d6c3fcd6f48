/**
 The walk over the tokenizer's node list: BOS and EOS sentinels are skipped,
 and every other node becomes one response node by way of `Feature.Normalise`.
 The same walk serves IPADIC and NEologd (`node2struct`) and UniDic (the loop
 of `parseMeCabUnidic`); only the column mapping differs.

 A node whose feature string splits into fewer than four fields makes the
 service panic (it slices the first four fields), which fails the request.
 That is modelled as an error result.
 */
module Nodes {
  import opened Strings
  import opened Feature

  /** The status MeCab gives a node. */
  datatype Stat = Normal | Unknown | BOS | EOS | EON

  /** One node of the tokenizer's output list. */
  datatype MeCabNode = MeCabNode(surface: string, feature: string, stat: Stat)

  /** The CSV field splitter, left abstract. */
  type Splitter = string -> seq<string>

  /** Why a request fails: the engine reported an error, or a feature had fewer than four fields. */
  datatype Panic = EngineError | ShortFeature(feature: string)

  datatype Result<T> = Ok(value: T) | Err(error: Panic) {
    predicate IsFailure() {
      Err?
    }

    function PropagateFailure<U>(): Result<U>
      requires Err?
    {
      Err(error)
    }

    function Extract(): T
      requires Ok?
    {
      value
    }
  }

  predicate IsSentinel(s: Stat)
  {
    s == BOS || s == EOS
  }

  /** A node the walk normalises but whose feature splits into too few fields. */
  predicate Malformed(n: MeCabNode, split: Splitter)
  {
    !IsSentinel(n.stat) && |split(n.feature)| < 4
  }

  /** The nodes that are not sentinels, in list order. */
  function RealNodes(nodes: seq<MeCabNode>): seq<MeCabNode>
  {
    if nodes == [] then []
    else (if IsSentinel(nodes[0].stat) then [] else [nodes[0]]) + RealNodes(nodes[1..])
  }

  /**
   The result of walking `nodes`, defined the way the walk proceeds: the
   prefix first, then the last node, which is skipped, rejected or normalised.
   */
  function Flattened(nodes: seq<MeCabNode>, split: Splitter, m: ColumnMapping): Result<seq<Node>>
  {
    if nodes == [] then Ok([])
    else
      var done :- Flattened(nodes[..|nodes| - 1], split, m);
      var node := nodes[|nodes| - 1];
      if IsSentinel(node.stat) then Ok(done)
      else
        var fields := split(node.feature);
        if |fields| < 4 then Err(ShortFeature(node.feature))
        else Ok(done + [Normalise(node.surface, node.feature, fields, m)])
  }

  /** Filtering sentinels distributes over concatenation. */
  lemma {:induction false} RealNodesConcat(a: seq<MeCabNode>, b: seq<MeCabNode>)
    ensures RealNodes(a + b) == RealNodes(a) + RealNodes(b)
    decreases |a|
  {
    if a == [] {
      assert a + b == b;
    } else {
      assert (a + b)[0] == a[0];
      assert (a + b)[1..] == a[1..] + b;
      RealNodesConcat(a[1..], b);
    }
  }

  /** The kept nodes are exactly the non-sentinel nodes of the list. */
  lemma {:induction false} RealNodesMembers(nodes: seq<MeCabNode>)
    ensures |RealNodes(nodes)| <= |nodes|
    ensures forall n :: n in RealNodes(nodes) <==> n in nodes && !IsSentinel(n.stat)
    decreases |nodes|
  {
    if nodes != [] {
      RealNodesMembers(nodes[1..]);
      assert nodes == [nodes[0]] + nodes[1..];
    }
  }

  /** An error found in a prefix is the error of the whole walk. */
  lemma {:induction false} FlattenedErrorPersists(nodes: seq<MeCabNode>, k: nat, split: Splitter, m: ColumnMapping)
    requires k <= |nodes|
    requires Flattened(nodes[..k], split, m).Err?
    ensures Flattened(nodes, split, m) == Flattened(nodes[..k], split, m)
    decreases |nodes| - k
  {
    if k < |nodes| {
      var longer := nodes[..k + 1];
      assert longer[..|longer| - 1] == nodes[..k];
      assert nodes[..k + 1][..k + 1] == nodes[..k + 1];
      FlattenedErrorPersists(nodes, k + 1, split, m);
    } else {
      assert nodes[..k] == nodes;
    }
  }

  /**
   The walk fails exactly when some non-sentinel node has fewer than four
   fields, and then it reports the first such node's feature string.
   */
  lemma {:induction false} FlattenedFails(nodes: seq<MeCabNode>, split: Splitter, m: ColumnMapping)
    ensures Flattened(nodes, split, m).Err? <==> exists i :: 0 <= i < |nodes| && Malformed(nodes[i], split)
    ensures Flattened(nodes, split, m).Err? ==>
      exists i :: 0 <= i < |nodes| && Malformed(nodes[i], split)
        && Flattened(nodes, split, m) == Err(ShortFeature(nodes[i].feature))
        && forall j :: 0 <= j < i ==> !Malformed(nodes[j], split)
    decreases |nodes|
  {
    if nodes != [] {
      var last := |nodes| - 1;
      var prefix := nodes[..last];
      FlattenedFails(prefix, split, m);
      assert forall i :: 0 <= i < last ==> prefix[i] == nodes[i];
      if Flattened(prefix, split, m).Err? {
        var i :| 0 <= i < |prefix| && Malformed(prefix[i], split)
          && Flattened(prefix, split, m) == Err(ShortFeature(prefix[i].feature))
          && forall j :: 0 <= j < i ==> !Malformed(prefix[j], split);
        assert Malformed(nodes[i], split);
      } else {
        assert forall i :: 0 <= i < last ==> !Malformed(nodes[i], split);
        if Malformed(nodes[last], split) {
          assert Flattened(nodes, split, m) == Err(ShortFeature(nodes[last].feature));
        }
      }
    }
  }

  /**
   When no node is malformed the walk succeeds with one response node per
   non-sentinel node, in list order, each the normalisation of that node with
   its surface and feature copied verbatim.
   */
  lemma {:induction false} FlattenedRecords(nodes: seq<MeCabNode>, split: Splitter, m: ColumnMapping)
    requires forall i :: 0 <= i < |nodes| ==> !Malformed(nodes[i], split)
    ensures Flattened(nodes, split, m).Ok?
    ensures |Flattened(nodes, split, m).value| == |RealNodes(nodes)|
    ensures forall k :: 0 <= k < |RealNodes(nodes)| ==>
      var n := RealNodes(nodes)[k];
      && |split(n.feature)| >= 4
      && Flattened(nodes, split, m).value[k] == Normalise(n.surface, n.feature, split(n.feature), m)
    decreases |nodes|
  {
    if nodes != [] {
      var last := |nodes| - 1;
      var prefix := nodes[..last];
      var node := nodes[last];
      assert forall i :: 0 <= i < last ==> prefix[i] == nodes[i];
      FlattenedRecords(prefix, split, m);
      assert nodes == prefix + [node];
      RealNodesConcat(prefix, [node]);
      assert RealNodes([node]) == if IsSentinel(node.stat) then [] else [node] by {
        assert [node][1..] == [];
      }
    }
  }

  /** A list of sentinels only, as the tokenizer gives for the empty sentence, yields no nodes. */
  lemma {:induction false} SentinelsOnly(nodes: seq<MeCabNode>, split: Splitter, m: ColumnMapping)
    requires forall i :: 0 <= i < |nodes| ==> IsSentinel(nodes[i].stat)
    ensures Flattened(nodes, split, m) == Ok([])
    decreases |nodes|
  {
    if nodes != [] {
      var prefix := nodes[..|nodes| - 1];
      assert forall i :: 0 <= i < |prefix| ==> prefix[i] == nodes[i];
      SentinelsOnly(prefix, split, m);
    }
  }

  /**
   The walk itself: follow the list, skip BOS and EOS, split each feature,
   collect the part-of-speech elements of the first four fields, pick the
   reading and base form by the mapping and append the node.
   */
  method Flatten(nodes: seq<MeCabNode>, split: Splitter, m: ColumnMapping) returns (r: Result<seq<Node>>)
    ensures r == Flattened(nodes, split, m)
  {
    var acc: seq<Node> := [];
    var i := 0;
    while i < |nodes|
      invariant 0 <= i <= |nodes|
      invariant Flattened(nodes[..i], split, m) == Ok(acc)
    {
      var node := nodes[i];
      assert nodes[..i + 1][..i] == nodes[..i];
      if IsSentinel(node.stat) {
        i := i + 1;
        continue;
      }
      var features := split(node.feature);
      if |features| < 4 {
        FlattenedErrorPersists(nodes, i + 1, split, m);
        return Err(ShortFeature(node.feature));
      }
      var posElem := CollectPosElements(features[..4]);
      var reading := "";
      if |features| > m.reading {
        reading := features[m.reading];
      }
      var baseform := "";
      if |features| > m.baseform {
        baseform := features[m.baseform];
      }
      acc := acc + [Node(node.surface, node.feature, Join(posElem, [POS_SEPARATOR]), baseform, reading)];
      i := i + 1;
    }
    assert nodes[..|nodes|] == nodes;
    r := Ok(acc);
  }
}
