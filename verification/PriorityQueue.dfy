/**
 * The indexed bucket priority queue of src/utils/helper/PriorityQueue.py: every node has a
 * priority in `nodeDict`, nodes of equal priority share a bucket in `priorityDict`, and
 * popped nodes keep their final priority in `finalVals`.
 */
module PriorityQueue {
  import opened Wrappers

  /** A priority: a finite number of minutes or math.inf. */
  datatype Priority = Finite(value: real) | Infinity

  /** a <= b, with infinity above every finite value. */
  predicate Below(a: Priority, b: Priority)
  {
    b.Infinity? || (a.Finite? && a.value <= b.value)
  }

  /** a < b */
  predicate StrictlyBelow(a: Priority, b: Priority)
  {
    a.Finite? && (b.Infinity? || a.value < b.value)
  }

  /** a + d; infinity absorbs any finite addend. */
  function Plus(a: Priority, d: real): (r: Priority)
    ensures d >= 0.0 ==> Below(a, r)
    ensures r.Infinity? <==> a.Infinity?
  {
    if a.Infinity? then Infinity else Finite(a.value + d)
  }

  lemma BelowIsTotalOrder(a: Priority, b: Priority, c: Priority)
    ensures Below(a, a)
    ensures Below(a, b) && Below(b, a) ==> a == b
    ensures Below(a, b) && Below(b, c) ==> Below(a, c)
    ensures Below(a, b) || Below(b, a)
    ensures StrictlyBelow(a, b) <==> !Below(b, a)
  {
  }

  predicate Distinct<T(==)>(s: seq<T>)
  {
    forall i, j :: 0 <= i < j < |s| ==> s[i] != s[j]
  }

  /** The sequence without its occurrences of x (list.remove on a list holding x once). */
  function Without<T(==)>(s: seq<T>, x: T): (r: seq<T>)
    ensures forall i :: 0 <= i < |r| ==> r[i] in s && r[i] != x
    ensures forall i :: 0 <= i < |s| && s[i] != x ==> s[i] in r
    ensures Distinct(s) ==> Distinct(r)
    ensures Distinct(s) && x in s ==> |r| == |s| - 1
    ensures x !in s ==> r == s
  {
    if s == [] then []
    else if s[0] == x then Without(s[1..], x)
    else [s[0]] + Without(s[1..], x)
  }

  /** The buckets after taking `node` out of bucket `oldVal`; an emptied bucket is deleted. */
  function RemoveFromBucket<T(==)>(buckets: map<Priority, seq<T>>, node: T, oldVal: Priority)
    : map<Priority, seq<T>>
    requires oldVal in buckets
  {
    var rest := Without(buckets[oldVal], node);
    if rest == [] then buckets - {oldVal} else buckets[oldVal := rest]
  }

  /** The buckets after appending `node` to bucket `newVal`, creating it if need be. */
  function AddToBucket<T(==)>(buckets: map<Priority, seq<T>>, node: T, newVal: Priority)
    : map<Priority, seq<T>>
  {
    if newVal in buckets then buckets[newVal := buckets[newVal] + [node]]
    else buckets[newVal := [node]]
  }

  /** The buckets after moving `node` from bucket `oldVal` to the end of bucket `newVal`. */
  function MoveToBucket<T(==)>(buckets: map<Priority, seq<T>>, node: T, oldVal: Priority,
                               newVal: Priority): map<Priority, seq<T>>
    requires oldVal in buckets
  {
    AddToBucket(RemoveFromBucket(buckets, node, oldVal), node, newVal)
  }

  /**
   * A node sits in bucket p exactly when its priority is p, and only once; only the infinity
   * bucket of a queue built from no nodes is ever empty.
   */
  ghost predicate Consistent<T>(nd: map<T, Priority>, pd: map<Priority, seq<T>>)
  {
    && (forall n :: n in nd ==> nd[n] in pd && n in pd[nd[n]])
    && (forall p, i :: p in pd && 0 <= i < |pd[p]| ==> pd[p][i] in nd && nd[pd[p][i]] == p)
    && (forall p :: p in pd ==> Distinct(pd[p]))
    && (forall p :: p in pd && pd[p] == [] ==> p == Infinity && nd == map[])
  }

  /** Popping the head of the lowest bucket keeps the buckets consistent. */
  lemma PopKeepsConsistent<T>(nd: map<T, Priority>, pd: map<Priority, seq<T>>, m: Priority)
    requires Consistent(nd, pd) && m in pd && pd[m] != []
    ensures var node := pd[m][0];
            Consistent(nd - {node}, if |pd[m]| > 1 then pd[m := pd[m][1..]] else pd - {m})
  {
    var node := pd[m][0];
    var nd' := nd - {node};
    var pd' := if |pd[m]| > 1 then pd[m := pd[m][1..]] else pd - {m};
    forall n | n in nd'
      ensures nd'[n] in pd' && n in pd'[nd'[n]]
    {
      var k :| 0 <= k < |pd[nd[n]]| && pd[nd[n]][k] == n;
      if nd[n] == m {
        assert k != 0;
        assert pd'[m][k - 1] == n;
      }
    }
    forall p, i | p in pd' && 0 <= i < |pd'[p]|
      ensures pd'[p][i] in nd' && nd'[pd'[p][i]] == p
    {
      if p == m {
        assert pd'[p][i] == pd[m][i + 1];
      }
    }
  }

  /** Moving a queued node to the final values keeps the two key sets a partition of `nodes`. */
  lemma MoveToFinal<T>(nd: map<T, Priority>, fv: map<T, Priority>, nodes: set<T>, node: T, m: Priority)
    requires nd.Keys !! fv.Keys && nd.Keys + fv.Keys == nodes && node in nd
    ensures |nd - {node}| == |nd| - 1
    ensures (nd - {node}).Keys !! fv[node := m].Keys
    ensures (nd - {node}).Keys + fv[node := m].Keys == nodes
  {
    OneFewer(nd, node);
    assert (nd - {node}).Keys == nd.Keys - {node};
    assert fv[node := m].Keys == fv.Keys + {node};
    MoveKey(nd.Keys, fv.Keys, node);
  }

  /** Moving a key from one of two disjoint sets to the other keeps them disjoint with the same union. */
  lemma MoveKey<T>(k: set<T>, f: set<T>, node: T)
    requires k !! f && node in k
    ensures (k - {node}) !! (f + {node}) && (k - {node}) + (f + {node}) == k + f
  {
  }

  /** Removing a key leaves one entry fewer. */
  lemma OneFewer<T>(nd: map<T, Priority>, node: T)
    requires node in nd
    ensures |nd - {node}| == |nd| - 1
  {
    assert (nd - {node}).Keys == nd.Keys - {node};
  }

  lemma RemoveKeepsConsistent<T>(nd: map<T, Priority>, pd: map<Priority, seq<T>>, node: T)
    requires Consistent(nd, pd) && node in nd
    ensures var pd' := RemoveFromBucket(pd, node, nd[node]);
            && Consistent(nd - {node}, pd')
            && (forall p :: p in pd' ==> node !in pd'[p] && pd'[p] != [])
  {
    var oldVal := nd[node];
    var nd' := nd - {node};
    var pd' := RemoveFromBucket(pd, node, oldVal);
    var rest := Without(pd[oldVal], node);
    forall n | n in nd'
      ensures nd'[n] in pd' && n in pd'[nd'[n]]
    {
      assert n in pd[nd[n]];
      if nd[n] == oldVal {
        var k :| 0 <= k < |pd[oldVal]| && pd[oldVal][k] == n;
        assert n in rest;
      }
    }
    forall p, i | p in pd' && 0 <= i < |pd'[p]|
      ensures pd'[p][i] in nd' && nd'[pd'[p][i]] == p
    {
      var x := pd'[p][i];
      if p == oldVal {
        assert x in pd[oldVal] && x != node;
      }
      var k :| 0 <= k < |pd[p]| && pd[p][k] == x;
    }
    forall p | p in pd'
      ensures node !in pd'[p] && pd'[p] != []
    {
    }
  }

  lemma AddKeepsConsistent<T>(nd: map<T, Priority>, pd: map<Priority, seq<T>>, node: T,
                              newVal: Priority)
    requires Consistent(nd, pd) && node !in nd
    requires forall p :: p in pd ==> node !in pd[p] && pd[p] != []
    ensures Consistent(nd[node := newVal], AddToBucket(pd, node, newVal))
  {
    var nd' := nd[node := newVal];
    var pd' := AddToBucket(pd, node, newVal);
    forall p, i | p in pd' && 0 <= i < |pd'[p]|
      ensures pd'[p][i] in nd' && nd'[pd'[p][i]] == p
    {
      if p == newVal && i == |pd'[p]| - 1 {
        assert pd'[p][i] == node;
      } else {
        assert pd'[p][i] == pd[p][i];
      }
    }
  }

  /** Moving a node between buckets keeps the buckets consistent. */
  lemma MoveKeepsConsistent<T>(nd: map<T, Priority>, pd: map<Priority, seq<T>>, node: T,
                               newVal: Priority)
    requires Consistent(nd, pd) && node in nd
    ensures Consistent(nd[node := newVal], MoveToBucket(pd, node, nd[node], newVal))
  {
    RemoveKeepsConsistent(nd, pd, node);
    AddKeepsConsistent(nd - {node}, RemoveFromBucket(pd, node, nd[node]), node, newVal);
    assert (nd - {node})[node := newVal] == nd[node := newVal];
  }

  class PriorityQueue<T(==)> {
    var nodeDict: map<T, Priority>
    var priorityDict: map<Priority, seq<T>>
    var finalVals: map<T, Priority>
    /** The nodes the queue was built from. */
    ghost var nodes: set<T>

    /**
     * A node sits in bucket p exactly when its priority is p, once; only the infinity bucket
     * of a queue built from no nodes is ever empty; popped nodes have left `nodeDict`.
     */
    ghost predicate Valid()
      reads this
    {
      && Consistent(nodeDict, priorityDict)
      && nodeDict.Keys !! finalVals.Keys
      && nodeDict.Keys + finalVals.Keys == nodes
    }

    /** __init__: every node at priority infinity, in one bucket, in the given order. */
    constructor (initial: seq<T>)
      requires Distinct(initial)
      ensures Valid()
      ensures nodes == set n | n in initial
      ensures nodeDict == map n | n in initial :: Infinity
      ensures priorityDict == map[Infinity := initial]
      ensures finalVals == map[]
    {
      var nd: map<T, Priority> := map[];
      var pd: map<Priority, seq<T>> := map[Infinity := []];
      var k := 0;
      while k < |initial|
        invariant 0 <= k <= |initial|
        invariant nd == map n | n in initial[..k] :: Infinity
        invariant pd == map[Infinity := initial[..k]]
      {
        nd := nd[initial[k] := Infinity];
        pd := pd[Infinity := pd[Infinity] + [initial[k]]];
        assert initial[..k + 1] == initial[..k] + [initial[k]];
        k := k + 1;
      }
      assert initial[..k] == initial;
      nodeDict, priorityDict, finalVals := nd, pd, map[];
      nodes := set n | n in initial;
    }

    /** The smallest bucket key (min of the dictionary's keys). */
    method MinPriority() returns (m: Priority)
      requires priorityDict != map[]
      ensures m in priorityDict
      ensures forall p :: p in priorityDict ==> Below(m, p)
    {
      var keys := priorityDict.Keys;
      m :| m in keys;
      var rest := keys - {m};
      while rest != {}
        invariant rest <= keys && m in keys
        invariant forall p :: p in keys - rest ==> Below(m, p)
        decreases rest
      {
        var p :| p in rest;
        ghost var prev := m;
        if StrictlyBelow(p, m) {
          m := p;
        }
        forall q | q in keys - (rest - {p})
          ensures Below(m, q)
        {
          BelowIsTotalOrder(m, prev, q);
          BelowIsTotalOrder(m, p, q);
        }
        rest := rest - {p};
      }
    }

    /**
     * pop: removes and returns the first node of the lowest bucket with that priority,
     * which is no larger than any remaining node's, and records it as final.
     */
    method Pop() returns (node: T, minValue: Priority)
      requires Valid() && nodeDict != map[]
      modifies this
      ensures Valid() && nodes == old(nodes)
      ensures node in old(nodeDict) && minValue == old(nodeDict)[node]
      ensures forall n :: n in old(nodeDict) ==> Below(minValue, old(nodeDict)[n])
      ensures minValue in old(priorityDict) && node == old(priorityDict)[minValue][0]
      ensures nodeDict == old(nodeDict) - {node}
      ensures |nodeDict| == |old(nodeDict)| - 1
      ensures finalVals == old(finalVals)[node := minValue]
      ensures priorityDict == if |old(priorityDict)[minValue]| > 1
                              then old(priorityDict)[minValue := old(priorityDict)[minValue][1..]]
                              else old(priorityDict) - {minValue}
    {
      var some :| some in nodeDict;
      minValue := MinPriority();
      var possNodes := priorityDict[minValue];
      assert possNodes != [] by {
        assert some in nodeDict;
      }
      PopKeepsConsistent(nodeDict, priorityDict, minValue);
      node := possNodes[0];
      MoveToFinal(nodeDict, finalVals, nodes, node, minValue);
      var pd := priorityDict;
      if |possNodes| > 1 {
        pd := pd[minValue := possNodes[1..]];
      } else {
        pd := pd - {minValue};
      }
      nodeDict, priorityDict, finalVals := nodeDict - {node}, pd, finalVals[node := nodeDict[node]];
    }

    /** replace: gives a node that is still queued a new priority and moves it to that bucket. */
    method Replace(node: T, newPriority: Priority)
      requires Valid() && node in nodeDict
      modifies this
      ensures Valid() && nodes == old(nodes)
      ensures nodeDict == old(nodeDict)[node := newPriority]
      ensures finalVals == old(finalVals)
      ensures priorityDict == MoveToBucket(old(priorityDict), node, old(nodeDict)[node], newPriority)
    {
      MoveKeepsConsistent(nodeDict, priorityDict, node, newPriority);
      var oldVal := nodeDict[node];
      var pd := priorityDict;
      var oldList := Without(pd[oldVal], node);
      if oldList == [] {
        pd := pd - {oldVal};
      } else {
        pd := pd[oldVal := oldList];
      }
      if newPriority in pd {
        pd := pd[newPriority := pd[newPriority] + [node]];
      } else {
        pd := pd[newPriority := [node]];
      }
      nodeDict, priorityDict := nodeDict[node := newPriority], pd;
    }

    /** get_priority: the current priority, or None once the node has been popped. */
    method GetPriority(node: T) returns (r: Option<Priority>)
      requires Valid()
      ensures r == if node in nodeDict then Some(nodeDict[node]) else None
      ensures node in nodes ==> (r.None? <==> node in finalVals)
    {
      r := if node in nodeDict then Some(nodeDict[node]) else None;
    }

    /** is_empty: no node is left to pop. */
    method IsEmpty() returns (b: bool)
      requires Valid()
      ensures b <==> nodeDict == map[]
      ensures b <==> finalVals.Keys == nodes
    {
      b := |nodeDict.Keys| == 0;
    }
  }
}
