/**
 * The undirected line graph of src/utils/helper/LineGraph.py: nodes are the stops of all
 * lines, edges join consecutive stops of a line, parallel edges of several lines are merged
 * into one edge carrying all their lines, and every node has an adjacency list.
 */
module LineGraph {
  import opened Wrappers
  import opened Network

  /** An edge between two stops and the set of lines travelling it. */
  datatype LineEdge = LineEdge(v1: Stop, v2: Stop, lines: set<Line>)

  /** The unordered endpoint pair; __hash__ hashes exactly this frozen set. */
  function EdgeKey(e: LineEdge): set<Stop>
  {
    {e.v1, e.v2}
  }

  /** contains_stop: v is one of the two endpoints. */
  predicate ContainsStop(e: LineEdge, v: Stop)
    ensures ContainsStop(e, v) <==> v in EdgeKey(e)
  {
    e.v1 == v || e.v2 == v
  }

  /** get_neighbour: the other endpoint; None for a stop off the edge (no error is raised). */
  function GetNeighbour(e: LineEdge, v: Stop): (r: Option<Stop>)
    ensures r.Some? <==> ContainsStop(e, v)
    ensures r.Some? ==> EdgeKey(e) == {v, r.value}
  {
    if e.v1 == v then Some(e.v2)
    else if e.v2 == v then Some(e.v1)
    else None
  }

  /** The neighbour relation is symmetric: each endpoint is the other's neighbour. */
  lemma NeighbourOfNeighbour(e: LineEdge)
    ensures GetNeighbour(e, e.v1) == Some(e.v2)
    ensures GetNeighbour(e, e.v2) == Some(e.v1)
  {
  }

  /** __eq__ as written: each endpoint of a is an endpoint of b; lines are ignored. */
  predicate EdgeEquals(a: LineEdge, b: LineEdge)
  {
    (a.v1 == b.v1 || a.v1 == b.v2) && (a.v2 == b.v2 || a.v2 == b.v1)
  }

  /** For an edge that is not a loop, equality is equality of endpoint pairs, in either orientation. */
  lemma EqualityIgnoresOrientation(a: LineEdge, b: LineEdge)
    requires a.v1 != a.v2
    ensures EdgeEquals(a, b) <==> EdgeKey(a) == EdgeKey(b)
    ensures EdgeEquals(a, LineEdge(a.v2, a.v1, b.lines))
  {
    if EdgeKey(a) == EdgeKey(b) {
      assert a.v1 in EdgeKey(b) && a.v2 in EdgeKey(b);
    }
    if EdgeEquals(a, b) {
      if a.v1 == b.v1 {
        assert a.v2 == b.v2;
      } else {
        assert a.v2 == b.v1;
      }
    }
  }

  /** A loop edge (a, a) compares equal to (a, b) although their hashes' pairs differ. */
  lemma LoopEdgeEqualsNeighbouringEdge(a: Stop, b: Stop, lines: set<Line>)
    requires a != b
    ensures EdgeEquals(LineEdge(a, a, lines), LineEdge(a, b, lines))
    ensures EdgeKey(LineEdge(a, a, lines)) != EdgeKey(LineEdge(a, b, lines))
  {
    assert b !in EdgeKey(LineEdge(a, a, lines));
  }

  // ----- get_nodes -----

  /** The stops of every bus's line. */
  function NodesOf(network: seq<Bus>): set<Stop>
  {
    set b, s | b in network && s in b.line.stops :: s
  }

  lemma NodesOfSnoc(network: seq<Bus>, b: Bus)
    ensures NodesOf(network + [b]) == NodesOf(network) + (set s | s in b.line.stops)
  {
    var l, r := NodesOf(network + [b]), NodesOf(network) + (set s | s in b.line.stops);
    forall s | s in l ensures s in r {
      var c :| c in network + [b] && s in c.line.stops;
      if c != b { assert c in network; }
    }
    forall s | s in r ensures s in l {
      if s !in NodesOf(network) {
        assert b in network + [b];
      } else {
        var c :| c in network && s in c.line.stops;
        assert c in network + [b];
      }
    }
  }

  /** get_nodes: exactly the union of the stops of every bus's line. */
  method GetNodes(network: seq<Bus>) returns (nodeSet: set<Stop>)
    ensures nodeSet == NodesOf(network)
    ensures forall b, s :: b in network && s in b.line.stops ==> s in nodeSet
  {
    nodeSet := {};
    for bi := 0 to |network|
      invariant nodeSet == NodesOf(network[..bi])
    {
      var stops := network[bi].line.stops;
      for si := 0 to |stops|
        invariant nodeSet == NodesOf(network[..bi]) + (set s | s in stops[..si])
      {
        assert stops[..si + 1] == stops[..si] + [stops[si]];
        nodeSet := nodeSet + {stops[si]};
      }
      assert stops[..|stops|] == stops;
      NodesOfSnoc(network[..bi], network[bi]);
      assert network[..bi + 1] == network[..bi] + [network[bi]];
    }
    assert network[..|network|] == network;
  }

  // ----- get_edges -----

  /** The edges between consecutive stops of one line, in line order. */
  function Segments(line: Line, n: nat): (r: seq<LineEdge>)
    requires n <= |line.stops|
    ensures |r| == if n == 0 then 0 else n - 1
    ensures forall i :: 0 <= i < |r| ==> r[i] == LineEdge(line.stops[i], line.stops[i + 1], {line})
  {
    if n <= 1 then [] else Segments(line, n - 1) + [LineEdge(line.stops[n - 2], line.stops[n - 1], {line})]
  }

  /** found_edges: one single-line edge per consecutive stop pair of each line, lines in order. */
  function FoundEdges(allLines: seq<Line>): seq<LineEdge>
  {
    if allLines == [] then []
    else
      var last := allLines[|allLines| - 1];
      FoundEdges(allLines[..|allLines| - 1]) + Segments(last, |last.stops|)
  }

  /** Every found edge joins two consecutive stops of one of the lines and carries that line. */
  lemma {:induction false} FoundEdgesAreSegments(allLines: seq<Line>, e: LineEdge)
    requires e in FoundEdges(allLines)
    ensures exists line, i :: (line in allLines && 0 <= i < |line.stops| - 1 &&
              e == LineEdge(line.stops[i], line.stops[i + 1], {line}))
  {
    var last := allLines[|allLines| - 1];
    var init := allLines[..|allLines| - 1];
    if e in FoundEdges(init) {
      FoundEdgesAreSegments(init, e);
      var line, i :| line in init && 0 <= i < |line.stops| - 1 &&
                     e == LineEdge(line.stops[i], line.stops[i + 1], {line});
      assert line in allLines;
    } else {
      var segs := Segments(last, |last.stops|);
      assert FoundEdges(allLines) == FoundEdges(init) + segs;
      var i :| 0 <= i < |segs| && segs[i] == e;
      assert last in allLines && e == LineEdge(last.stops[i], last.stops[i + 1], {last});
    }
  }

  /** Every consecutive stop pair of every line gives a found edge. */
  lemma {:induction false} SegmentsAreFound(allLines: seq<Line>, k: nat, i: nat)
    requires k < |allLines| && i < |allLines[k].stops| - 1
    ensures LineEdge(allLines[k].stops[i], allLines[k].stops[i + 1], {allLines[k]}) in FoundEdges(allLines)
  {
    var init := allLines[..|allLines| - 1];
    if k < |allLines| - 1 {
      assert init[k] == allLines[k];
      SegmentsAreFound(init, k, i);
    } else {
      var last := allLines[k];
      assert Segments(last, |last.stops|)[i] == LineEdge(last.stops[i], last.stops[i + 1], {last});
    }
  }

  /** Some edge of es has endpoint pair k. */
  ghost predicate HasKey(es: seq<LineEdge>, k: set<Stop>)
  {
    exists e :: e in es && EdgeKey(e) == k
  }

  lemma HasKeySnoc(es: seq<LineEdge>, k: set<Stop>)
    requires es != []
    ensures HasKey(es, k) <==> HasKey(es[..|es| - 1], k) || EdgeKey(es[|es| - 1]) == k
  {
    var init := es[..|es| - 1];
    if HasKey(es, k) {
      var x :| x in es && EdgeKey(x) == k;
      if x != es[|es| - 1] { assert x in init; }
    }
    if HasKey(init, k) {
      var x :| x in init && EdgeKey(x) == k;
      assert x in es;
    }
    assert es[|es| - 1] in es;
  }

  /** The distinct endpoint pairs of the edges, in order of first occurrence (dict key order). */
  function KeysInOrder(es: seq<LineEdge>): (ks: seq<set<Stop>>)
    ensures forall i, j :: 0 <= i < j < |ks| ==> ks[i] != ks[j]
    ensures forall k :: k in ks <==> HasKey(es, k)
  {
    if es == [] then []
    else
      var init := es[..|es| - 1];
      var e := es[|es| - 1];
      var ks := KeysInOrder(init);
      assert forall k :: HasKey(es, k) <==> HasKey(init, k) || EdgeKey(e) == k by {
        forall k ensures HasKey(es, k) <==> HasKey(init, k) || EdgeKey(e) == k {
          HasKeySnoc(es, k);
        }
      }
      if EdgeKey(e) in ks then ks else ks + [EdgeKey(e)]
  }

  /** hash_dict[key]: the edges with that endpoint pair, in order. */
  function Bucket(es: seq<LineEdge>, key: set<Stop>): (b: seq<LineEdge>)
    ensures forall x :: x in b <==> x in es && EdgeKey(x) == key
  {
    if es == [] then []
    else
      var e := es[|es| - 1];
      Bucket(es[..|es| - 1], key) + (if EdgeKey(e) == key then [e] else [])
  }

  lemma {:induction false} BucketSnoc(es: seq<LineEdge>, e: LineEdge)
    ensures forall key :: Bucket(es + [e], key) == Bucket(es, key) + (if EdgeKey(e) == key then [e] else [])
  {
    assert (es + [e])[..|es|] == es;
  }

  lemma {:induction false} KeysInOrderSnoc(es: seq<LineEdge>, e: LineEdge)
    ensures KeysInOrder(es + [e]) ==
              if EdgeKey(e) in KeysInOrder(es) then KeysInOrder(es) else KeysInOrder(es) + [EdgeKey(e)]
  {
    assert (es + [e])[..|es|] == es;
  }

  /** A pair some edge has gets a nonempty bucket. */
  lemma {:induction false} NonEmptyBucket(es: seq<LineEdge>, key: set<Stop>)
    requires HasKey(es, key)
    ensures Bucket(es, key) != []
  {
    var e :| e in es && EdgeKey(e) == key;
    assert e in Bucket(es, key);
  }

  /** A pair no edge has gets an empty bucket. */
  lemma {:induction false} EmptyBucket(es: seq<LineEdge>, key: set<Stop>)
    requires !HasKey(es, key)
    ensures Bucket(es, key) == []
  {
    if es != [] {
      HasKeySnoc(es, key);
      EmptyBucket(es[..|es| - 1], key);
    }
  }

  /** The union of the line sets of some edges. */
  function UnionLines(es: seq<LineEdge>): (u: set<Line>)
    ensures forall l :: l in u <==> exists e :: e in es && l in e.lines
  {
    if es == [] then {}
    else
      var init := es[..|es| - 1];
      var e := es[|es| - 1];
      assert forall x :: x in es ==> x in init || x == e;
      UnionLines(init) + e.lines
  }

  /** The edge kept for one endpoint pair: the first such edge, with the lines of all of them. */
  function MergeBucket(b: seq<LineEdge>): LineEdge
    requires b != []
  {
    LineEdge(b[0].v1, b[0].v2, UnionLines(b))
  }

  /** One merged edge per listed endpoint pair, in the order of the list. */
  function MergeAll(es: seq<LineEdge>, ks: seq<set<Stop>>): (r: seq<LineEdge>)
    requires forall k :: k in ks ==> HasKey(es, k)
    ensures |r| == |ks|
  {
    if ks == [] then []
    else
      var last := ks[|ks| - 1];
      assert last in ks;
      NonEmptyBucket(es, last);
      MergeAll(es, ks[..|ks| - 1]) + [MergeBucket(Bucket(es, last))]
  }

  /** The i-th merged edge comes from the bucket of the i-th pair. */
  lemma {:induction false} MergeAllAt(es: seq<LineEdge>, ks: seq<set<Stop>>, i: nat)
    requires forall k :: k in ks ==> HasKey(es, k)
    requires i < |ks|
    ensures Bucket(es, ks[i]) != [] && MergeAll(es, ks)[i] == MergeBucket(Bucket(es, ks[i]))
  {
    assert ks[i] in ks;
    NonEmptyBucket(es, ks[i]);
    if i < |ks| - 1 {
      var init := ks[..|ks| - 1];
      assert init[i] == ks[i];
      MergeAllAt(es, init, i);
    }
  }

  /** The merged edge list get_edges means to return: one edge per endpoint pair. */
  function MergeEdges(es: seq<LineEdge>): (r: seq<LineEdge>)
    ensures |r| == |KeysInOrder(es)|
  {
    MergeAll(es, KeysInOrder(es))
  }

  /** The i-th merged edge has the i-th endpoint pair and comes from a found edge with it. */
  lemma {:induction false} MergedEdgeAt(es: seq<LineEdge>, i: nat)
    requires i < |MergeEdges(es)|
    ensures EdgeKey(MergeEdges(es)[i]) == KeysInOrder(es)[i]
    ensures Bucket(es, KeysInOrder(es)[i]) != []
    ensures MergeEdges(es)[i] == MergeBucket(Bucket(es, KeysInOrder(es)[i]))
    ensures exists e :: e in es && e.v1 == MergeEdges(es)[i].v1 && e.v2 == MergeEdges(es)[i].v2
  {
    var ks := KeysInOrder(es);
    MergeAllAt(es, ks, i);
    var b := Bucket(es, ks[i]);
    assert b[0] in b;
  }

  /** The merged edges have pairwise distinct endpoint pairs. */
  lemma MergedKeysDistinct(es: seq<LineEdge>)
    ensures forall i, j :: 0 <= i < j < |MergeEdges(es)| ==>
              EdgeKey(MergeEdges(es)[i]) != EdgeKey(MergeEdges(es)[j])
  {
    forall i, j | 0 <= i < j < |MergeEdges(es)|
      ensures EdgeKey(MergeEdges(es)[i]) != EdgeKey(MergeEdges(es)[j])
    {
      MergedEdgeAt(es, i);
      MergedEdgeAt(es, j);
    }
  }

  /** Every found edge is represented by a merged edge with its pair that carries its lines. */
  lemma FoundEdgeRepresented(es: seq<LineEdge>, e: LineEdge)
    requires e in es
    ensures exists i :: 0 <= i < |MergeEdges(es)| &&
              EdgeKey(MergeEdges(es)[i]) == EdgeKey(e) && e.lines <= MergeEdges(es)[i].lines
  {
    var ks := KeysInOrder(es);
    assert HasKey(es, EdgeKey(e));
    var i :| 0 <= i < |ks| && ks[i] == EdgeKey(e);
    MergedEdgeAt(es, i);
    assert e in Bucket(es, ks[i]);
  }

  /** A merged edge carries exactly the lines of the found edges with its endpoint pair. */
  lemma MergedLinesExact(es: seq<LineEdge>, i: nat, l: Line)
    requires i < |MergeEdges(es)|
    ensures l in MergeEdges(es)[i].lines <==>
              exists e :: e in es && EdgeKey(e) == EdgeKey(MergeEdges(es)[i]) && l in e.lines
  {
    MergedEdgeAt(es, i);
  }

  /** Two found edges with the same endpoint pair. */
  predicate HasParallelEdges(es: seq<LineEdge>)
  {
    exists i, j :: 0 <= i < j < |es| && EdgeKey(es[i]) == EdgeKey(es[j])
  }

  /**
   * get_edges as written: merging two parallel edges executes `lines += lines` on Python
   * sets, which raises TypeError; without parallel edges every bucket holds one edge and the
   * found edges come back unchanged.
   */
  function GetEdgesAsWritten(allLines: seq<Line>): Result<seq<LineEdge>>
  {
    var found := FoundEdges(allLines);
    if HasParallelEdges(found) then Failure("TypeError: unsupported operand type(s) for +=: 'set' and 'set'")
    else Success(found)
  }

  /** Two parallel edges: one key, one bucket holding both, merged lines the union. */
  lemma MergeParallelPair(e1: LineEdge, e2: LineEdge)
    requires EdgeKey(e1) == EdgeKey(e2)
    ensures MergeEdges([e1, e2]) == [LineEdge(e1.v1, e1.v2, e1.lines + e2.lines)]
  {
    var es := [e1, e2];
    assert es == [e1] + [e2];
    assert [e1] == [] + [e1];
    KeysInOrderSnoc([], e1);
    KeysInOrderSnoc([e1], e2);
    assert KeysInOrder(es) == [EdgeKey(e1)];
    BucketSnoc([], e1);
    BucketSnoc([e1], e2);
    assert Bucket(es, EdgeKey(e1)) == es;
    assert UnionLines(es) == e1.lines + e2.lines by {
      assert es[..1] == [e1];
      assert [e1][..0] == [];
    }
    MergeAllAt(es, KeysInOrder(es), 0);
  }

  /** The found edges of two two-stop lines. */
  lemma FoundEdgesOfTwoShortLines(l1: Line, l2: Line)
    requires |l1.stops| == 2 && |l2.stops| == 2
    ensures FoundEdges([l1, l2]) ==
              [LineEdge(l1.stops[0], l1.stops[1], {l1}), LineEdge(l2.stops[0], l2.stops[1], {l2})]
  {
    assert [l1, l2][..1] == [l1];
    assert [l1][..0] == [];
    assert FoundEdges([l1]) == Segments(l1, 2);
  }

  /** Two lines sharing a consecutive stop pair make get_edges fail as written; merging gives one edge. */
  lemma SharedSegmentFailsAsWritten(l1: Line, l2: Line)
    requires |l1.stops| == 2 && |l2.stops| == 2 && l1.stops == l2.stops
    ensures GetEdgesAsWritten([l1, l2]).Failure?
    ensures MergeEdges(FoundEdges([l1, l2])) == [LineEdge(l1.stops[0], l1.stops[1], {l1, l2})]
  {
    FoundEdgesOfTwoShortLines(l1, l2);
    var e1 := LineEdge(l1.stops[0], l1.stops[1], {l1});
    var e2 := LineEdge(l2.stops[0], l2.stops[1], {l2});
    assert FoundEdges([l1, l2]) == [e1, e2];
    ParallelPair(e1, e2);
    MergeParallelPair(e1, e2);
    assert e1.lines + e2.lines == {l1, l2};
  }

  /** Two edges with one endpoint pair are parallel edges. */
  lemma ParallelPair(e1: LineEdge, e2: LineEdge)
    requires EdgeKey(e1) == EdgeKey(e2)
    ensures HasParallelEdges([e1, e2])
  {
    assert EdgeKey([e1, e2][0]) == EdgeKey([e1, e2][1]);
  }

  /** Without parallel edges the as-written and the merging version agree on the edges' lines. */
  lemma {:induction false} AsWrittenAgreesWithoutParallelEdges(allLines: seq<Line>)
    requires !HasParallelEdges(FoundEdges(allLines))
    ensures GetEdgesAsWritten(allLines) == Success(FoundEdges(allLines))
    ensures |MergeEdges(FoundEdges(allLines))| == |FoundEdges(allLines)|
  {
    var es := FoundEdges(allLines);
    KeysDistinctCount(es);
  }

  /** Without parallel edges, every edge contributes its own key. */
  lemma {:induction false} KeysDistinctCount(es: seq<LineEdge>)
    requires !HasParallelEdges(es)
    ensures |KeysInOrder(es)| == |es|
  {
    if es != [] {
      var init := es[..|es| - 1];
      var e := es[|es| - 1];
      forall i, j | 0 <= i < j < |init|
        ensures EdgeKey(init[i]) != EdgeKey(init[j])
      {
        assert es[i] == init[i] && es[j] == init[j];
      }
      KeysDistinctCount(init);
      forall x | x in init
        ensures EdgeKey(x) != EdgeKey(e)
      {
        var i :| 0 <= i < |init| && init[i] == x;
        assert es[i] == x;
      }
      assert !HasKey(init, EdgeKey(e));
    }
  }

  /** get_edges, inner first loop: the edges between consecutive stops of one line. */
  method LineSegments(line: Line) returns (segs: seq<LineEdge>)
    ensures segs == Segments(line, |line.stops|)
  {
    segs := [];
    if |line.stops| > 0 {
      for i := 1 to |line.stops|
        invariant segs == Segments(line, i)
      {
        segs := segs + [LineEdge(line.stops[i - 1], line.stops[i], {line})];
      }
    }
  }

  /** get_edges, first loop: the single-line edge of each consecutive stop pair of each line. */
  method CollectFoundEdges(allLines: seq<Line>) returns (found: seq<LineEdge>)
    ensures found == FoundEdges(allLines)
  {
    found := [];
    for li := 0 to |allLines|
      invariant found == FoundEdges(allLines[..li])
    {
      var segs := LineSegments(allLines[li]);
      found := found + segs;
      assert allLines[..li + 1][..li] == allLines[..li];
    }
    assert allLines[..|allLines|] == allLines;
  }

  /** hash_dict after some edges: insertion-ordered keys, one bucket per key. */
  ghost predicate Grouped(es: seq<LineEdge>, hashDict: map<set<Stop>, seq<LineEdge>>, keyOrder: seq<set<Stop>>)
  {
    && keyOrder == KeysInOrder(es)
    && (forall key :: key in hashDict <==> key in keyOrder)
    && (forall key :: key in hashDict ==> hashDict[key] == Bucket(es, key))
  }

  lemma GroupNewKey(es: seq<LineEdge>, e: LineEdge, hashDict: map<set<Stop>, seq<LineEdge>>, keyOrder: seq<set<Stop>>)
    requires Grouped(es, hashDict, keyOrder) && EdgeKey(e) !in hashDict
    ensures Grouped(es + [e], hashDict[EdgeKey(e) := [e]], keyOrder + [EdgeKey(e)])
  {
    BucketSnoc(es, e);
    KeysInOrderSnoc(es, e);
    EmptyBucket(es, EdgeKey(e));
  }

  lemma GroupOldKey(es: seq<LineEdge>, e: LineEdge, hashDict: map<set<Stop>, seq<LineEdge>>, keyOrder: seq<set<Stop>>)
    requires Grouped(es, hashDict, keyOrder) && EdgeKey(e) in hashDict
    ensures Grouped(es + [e], hashDict[EdgeKey(e) := hashDict[EdgeKey(e)] + [e]], keyOrder)
  {
    BucketSnoc(es, e);
    KeysInOrderSnoc(es, e);
  }

  /** get_edges, second loop: hash_dict groups the edges by endpoint pair, keys in insertion order. */
  method GroupByKey(found: seq<LineEdge>) returns (hashDict: map<set<Stop>, seq<LineEdge>>, keyOrder: seq<set<Stop>>)
    ensures keyOrder == KeysInOrder(found)
    ensures forall key :: key in hashDict <==> key in keyOrder
    ensures forall key :: key in hashDict ==> hashDict[key] == Bucket(found, key)
  {
    hashDict := map[];
    keyOrder := [];
    for k := 0 to |found|
      invariant Grouped(found[..k], hashDict, keyOrder)
    {
      var edge := found[k];
      assert found[..k + 1] == found[..k] + [edge];
      if EdgeKey(edge) !in hashDict {
        GroupNewKey(found[..k], edge, hashDict, keyOrder);
        hashDict := hashDict[EdgeKey(edge) := [edge]];
        keyOrder := keyOrder + [EdgeKey(edge)];
      } else {
        GroupOldKey(found[..k], edge, hashDict, keyOrder);
        hashDict := hashDict[EdgeKey(edge) := hashDict[EdgeKey(edge)] + [edge]];
      }
    }
    assert found[..|found|] == found;
  }

  /** get_edges, inner merge: the union of the lines of one bucket. */
  method UnionOfBucket(sameEdges: seq<LineEdge>) returns (lines: set<Line>)
    requires sameEdges != []
    ensures lines == UnionLines(sameEdges)
  {
    lines := sameEdges[0].lines;
    assert sameEdges[..1][..0] == [];
    for i := 1 to |sameEdges|
      invariant lines == UnionLines(sameEdges[..i])
    {
      assert sameEdges[..i + 1][..i] == sameEdges[..i];
      lines := lines + sameEdges[i].lines;
    }
    assert sameEdges[..|sameEdges|] == sameEdges;
  }

  /**
   * get_edges (merging parallel edges by set union): builds the found edges, groups them by
   * endpoint pair in first-occurrence order, and keeps one edge per pair.
   */
  method GetEdges(allLines: seq<Line>) returns (finalEdges: seq<LineEdge>)
    ensures finalEdges == MergeEdges(FoundEdges(allLines))
  {
    var found := CollectFoundEdges(allLines);
    var hashDict, keyOrder := GroupByKey(found);
    finalEdges := [];
    for k := 0 to |keyOrder|
      invariant finalEdges == MergeAll(found, keyOrder[..k])
    {
      assert keyOrder[..k + 1][..k] == keyOrder[..k];
      var key := keyOrder[k];
      assert key in keyOrder;
      var sameEdges := hashDict[key];
      assert sameEdges != [] by {
        assert HasKey(found, key);
        var e :| e in found && EdgeKey(e) == key;
        assert e in Bucket(found, key);
      }
      var singleEdge := sameEdges[0];
      var lines := UnionOfBucket(sameEdges);
      finalEdges := finalEdges + [LineEdge(singleEdge.v1, singleEdge.v2, lines)];
    }
    assert keyOrder[..|keyOrder|] == keyOrder;
  }

  // ----- LineGraph -----

  /** The lines of the buses. */
  function LinesOf(network: seq<Bus>): set<Line>
  {
    set b | b in network :: b.line
  }

  /** The adjacency list of a node: the edges touching it, in edge order, a loop twice. */
  function Adjacent(edges: seq<LineEdge>, n: Stop): (adj: seq<LineEdge>)
    ensures forall e :: e in adj ==> e in edges && ContainsStop(e, n)
  {
    if edges == [] then []
    else
      var e := edges[|edges| - 1];
      Adjacent(edges[..|edges| - 1], n) + (if e.v1 == n then [e] else []) + (if e.v2 == n then [e] else [])
  }

  lemma {:induction false} AdjacentSnoc(es: seq<LineEdge>, e: LineEdge)
    ensures forall n :: Adjacent(es + [e], n) ==
              Adjacent(es, n) + (if e.v1 == n then [e] else []) + (if e.v2 == n then [e] else [])
  {
    assert (es + [e])[..|es|] == es;
  }

  /** Each edge is in the adjacency lists of both its endpoints. */
  lemma {:induction false} EdgeInBothLists(edges: seq<LineEdge>, e: LineEdge)
    requires e in edges
    ensures e in Adjacent(edges, e.v1) && e in Adjacent(edges, e.v2)
  {
    var init := edges[..|edges| - 1];
    if e != edges[|edges| - 1] {
      assert e in init;
      EdgeInBothLists(init, e);
    }
  }

  /** The adjacency list of a node holds exactly the edges touching it. */
  lemma AdjacentMembers(edges: seq<LineEdge>, n: Stop, e: LineEdge)
    ensures e in Adjacent(edges, n) <==> e in edges && ContainsStop(e, n)
  {
    if e in edges && ContainsStop(e, n) {
      EdgeInBothLists(edges, e);
    }
  }

  /** A set iterated in some order: each element exactly once. */
  method IterationOrder<T(==)>(all: set<T>) returns (order: seq<T>)
    ensures (set l | l in order) == all
    ensures forall i, j :: 0 <= i < j < |order| ==> order[i] != order[j]
  {
    order := [];
    var rest := all;
    while rest != {}
      invariant rest <= all
      invariant (set l | l in order) == all - rest
      invariant forall i, j :: 0 <= i < j < |order| ==> order[i] != order[j]
      decreases rest
    {
      var l :| l in rest;
      forall i | 0 <= i < |order|
        ensures order[i] != l
      {
        assert order[i] in (set x | x in order);
      }
      assert (set x | x in order + [l]) == (set x | x in order) + {l};
      order := order + [l];
      rest := rest - {l};
    }
  }

  /** The merged edges of the buses' lines join stops of those lines. */
  lemma {:induction false} EndpointsAreNodes(network: seq<Bus>, order: seq<Line>)
    requires (set l | l in order) == LinesOf(network)
    ensures forall e :: e in MergeEdges(FoundEdges(order)) ==> e.v1 in NodesOf(network) && e.v2 in NodesOf(network)
  {
    var es := MergeEdges(FoundEdges(order));
    forall e | e in es
      ensures e.v1 in NodesOf(network) && e.v2 in NodesOf(network)
    {
      var i :| 0 <= i < |es| && es[i] == e;
      MergedEdgeAt(FoundEdges(order), i);
      var f :| f in FoundEdges(order) && f.v1 == e.v1 && f.v2 == e.v2;
      FoundEdgesAreSegments(order, f);
      var line, k :| line in order && 0 <= k < |line.stops| - 1 &&
                     f == LineEdge(line.stops[k], line.stops[k + 1], {line});
      assert line in LinesOf(network);
      var b :| b in network && b.line == line;
      assert line.stops[k] in b.line.stops && line.stops[k + 1] in b.line.stops;
    }
  }

  /** graph_dict: an empty list per node, then each edge appended to both endpoints' lists. */
  method BuildAdjacency(nodes: set<Stop>, es: seq<LineEdge>) returns (gd: map<Stop, seq<LineEdge>>)
    requires forall e :: e in es ==> e.v1 in nodes && e.v2 in nodes
    ensures gd.Keys == nodes
    ensures forall n :: n in gd ==> gd[n] == Adjacent(es, n)
  {
    gd := map n | n in nodes :: [];
    for k := 0 to |es|
      invariant gd.Keys == nodes
      invariant forall n :: n in gd ==> gd[n] == Adjacent(es[..k], n)
    {
      gd := AddEdge(gd, nodes, es, k);
    }
    assert es[..|es|] == es;
  }

  /** The body of the graph_dict loop: edge k is appended to the lists of both its endpoints. */
  method AddEdge(gd: map<Stop, seq<LineEdge>>, nodes: set<Stop>, es: seq<LineEdge>, k: nat)
    returns (next: map<Stop, seq<LineEdge>>)
    requires k < |es| && es[k].v1 in nodes && es[k].v2 in nodes && gd.Keys == nodes
    requires forall n :: n in gd ==> gd[n] == Adjacent(es[..k], n)
    ensures next.Keys == nodes
    ensures forall n :: n in next ==> next[n] == Adjacent(es[..k + 1], n)
  {
    var edge := es[k];
    AdjacentSnoc(es[..k], edge);
    assert es[..k + 1] == es[..k] + [edge];
    next := gd[edge.v1 := gd[edge.v1] + [edge]];
    next := next[edge.v2 := next[edge.v2] + [edge]];
  }

  class LineGraph {
    var edges: seq<LineEdge>
    var graphDict: map<Stop, seq<LineEdge>>
    /** The order in which the set of lines was iterated when the edges were built. */
    ghost var lineOrder: seq<Line>

    /** Every edge joins two nodes, and a node's list holds exactly the edges touching it. */
    ghost predicate Valid()
      reads this
    {
      && (forall e :: e in edges ==> e.v1 in graphDict && e.v2 in graphDict)
      && (forall n, e :: n in graphDict ==> (e in graphDict[n] <==> e in edges && ContainsStop(e, n)))
    }

    /** __init__: nodes of all bus lines, merged edges of those lines, and adjacency lists. */
    constructor (network: seq<Bus>)
      ensures Valid()
      ensures graphDict.Keys == NodesOf(network)
      ensures (set l | l in lineOrder) == LinesOf(network)
      ensures forall i, j :: 0 <= i < j < |lineOrder| ==> lineOrder[i] != lineOrder[j]
      ensures edges == MergeEdges(FoundEdges(lineOrder))
      ensures forall n :: n in graphDict ==> graphDict[n] == Adjacent(edges, n)
    {
      var nodes := GetNodes(network);
      var order := IterationOrder(LinesOf(network));
      var es := GetEdges(order);
      EndpointsAreNodes(network, order);
      var gd := BuildAdjacency(nodes, es);
      forall n, e | n in gd
        ensures e in gd[n] <==> e in es && ContainsStop(e, n)
      {
        AdjacentMembers(es, n, e);
      }
      edges, graphDict, lineOrder := es, gd, order;
    }

    /** get_nodes */
    function NodeSet(): (ns: set<Stop>)
      reads this
      requires Valid()
      ensures forall e :: e in edges ==> e.v1 in ns && e.v2 in ns
    {
      graphDict.Keys
    }

    /** get_edges */
    function EdgeList(): seq<LineEdge>
      reads this
    {
      edges
    }

    /** get_edges_of_node: the edges touching a node (KeyError for a stop off the graph). */
    function EdgesOfNode(node: Stop): (adj: seq<LineEdge>)
      reads this
      requires Valid() && node in graphDict
      ensures forall e :: e in adj ==> e in edges && ContainsStop(e, node)
      ensures forall e :: e in edges && ContainsStop(e, node) ==> e in adj
    {
      graphDict[node]
    }
  }
}
