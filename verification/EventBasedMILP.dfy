/**
 * Candidate generation for the event-based model: which legs may share a bus when a leg is
 * picked up or dropped off. A spatial sweep along a line and a temporal sweep along the clock
 * each keep an active set of legs; the candidates of a leg are the legs active when it starts
 * (pick-up candidates) and when it ends (drop-off candidates), and the final candidate sets
 * are the intersection of both sweeps. From a candidate list, get_permutations builds the
 * growing, capacity-bounded passenger sets of the pick-up and drop-off events.
 */
module EventBasedMILP {
  import opened Wrappers
  import opened Timer
  import opened Network
  import opened PriorityQueue
  import opened LineGraph
  import opened Helper
  import opened EventGraph
  import opened Sorting

  // ----- check_on_route -----

  /**
   * check_on_route: does the search stop lie on the stretch of the leg's line between its
   * pick-up and drop-off (inclusive, in either direction)? list.index raises for a stop that
   * is not on the line, which is the failure case.
   */
  function CheckOnRoute(split: Leg, searchLoc: Stop): (r: Result<bool>)
    ensures r.Failure? <==>
              split.pickUp !in split.line.stops || split.dropOff !in split.line.stops || searchLoc !in split.line.stops
    ensures r.Success? ==>
              var i := IndexOf(split.line.stops, split.pickUp).value;
              var j := IndexOf(split.line.stops, split.dropOff).value;
              var k := IndexOf(split.line.stops, searchLoc).value;
              (r.value <==> (i <= k <= j || j <= k <= i))
  {
    match (IndexOf(split.line.stops, split.pickUp), IndexOf(split.line.stops, split.dropOff),
           IndexOf(split.line.stops, searchLoc))
    case (Some(idxStart), Some(idxEnd), Some(idxSearch)) =>
      if idxStart < idxEnd then Success(idxStart <= idxSearch <= idxEnd)
      else Success(idxStart >= idxSearch >= idxEnd)
    case _ => Failure("ValueError: stop is not on the line")
  }

  /** The leg's own end stops are always on its route. */
  lemma CheckOnRouteEndpoints(split: Leg)
    requires split.pickUp in split.line.stops && split.dropOff in split.line.stops
    ensures CheckOnRoute(split, split.pickUp) == Success(true)
    ensures CheckOnRoute(split, split.dropOff) == Success(true)
  {
  }

  /** Travelling the leg the other way round covers the same stretch. */
  lemma CheckOnRouteReversed(split: Leg, searchLoc: Stop)
    ensures CheckOnRoute(split, searchLoc) == CheckOnRoute(split.(pickUp := split.dropOff, dropOff := split.pickUp), searchLoc)
  {
  }

  /** In a sequence without repeats, equal elements sit at equal positions. */
  lemma DistinctPositions<T>(s: seq<T>, a: nat, b: nat)
    requires Distinct(s) && a < |s| && b < |s| && s[a] == s[b]
    ensures a == b
  {
  }

  /** Membership in a slice, by position. */
  lemma InSlice<T>(s: seq<T>, lo: nat, hi: nat, x: T)
    requires lo <= hi <= |s|
    ensures x in s[lo..hi] <==> exists m :: lo <= m < hi && s[m] == x
  {
    if x in s[lo..hi] {
      var m :| 0 <= m < hi - lo && s[lo..hi][m] == x;
      assert s[lo + m] == x;
    }
    if exists m :: lo <= m < hi && s[m] == x {
      var m :| lo <= m < hi && s[m] == x;
      assert s[lo..hi][m - lo] == x;
    }
  }

  /**
   * On a line that visits each stop once, the check holds exactly for the stops of the stretch
   * of the line from the earlier to the later of the two end stops.
   */
  lemma {:induction false} CheckOnRouteStretch(split: Leg, searchLoc: Stop)
    requires Distinct(split.line.stops)
    requires split.pickUp in split.line.stops && split.dropOff in split.line.stops && searchLoc in split.line.stops
    ensures var i := IndexOf(split.line.stops, split.pickUp).value;
            var j := IndexOf(split.line.stops, split.dropOff).value;
            var lo := if i <= j then i else j;
            var hi := if i <= j then j else i;
            (CheckOnRoute(split, searchLoc) == Success(true) <==> searchLoc in split.line.stops[lo..hi + 1])
  {
    StretchByIndex(split.line.stops, IndexOf(split.line.stops, split.pickUp).value,
                   IndexOf(split.line.stops, split.dropOff).value, IndexOf(split.line.stops, searchLoc).value);
  }

  /** The stretch between positions i and j, either way round, holds the element at k exactly when k lies between. */
  lemma StretchByIndex<T>(s: seq<T>, i: nat, j: nat, k: nat)
    requires Distinct(s) && i < |s| && j < |s| && k < |s|
    ensures var lo := if i <= j then i else j;
            var hi := if i <= j then j else i;
            (s[k] in s[lo..hi + 1] <==> i <= k <= j || j <= k <= i)
  {
    var lo := if i <= j then i else j;
    var hi := if i <= j then j else i;
    InSliceAt(s, lo, hi + 1, k);
  }

  /** In a sequence without repeats, the element at k lies in a slice exactly when k does. */
  lemma InSliceAt<T>(s: seq<T>, lo: nat, hi: nat, k: nat)
    requires Distinct(s) && lo <= hi <= |s| && k < |s|
    ensures s[k] in s[lo..hi] <==> lo <= k < hi
  {
    InSlice(s, lo, hi, s[k]);
    forall m | lo <= m < hi && s[m] == s[k]
      ensures m == k
    {
      DistinctPositions(s, m, k);
    }
  }

  // ----- iterate_sweep_line -----

  /** The legs inserted (starting) and deleted (ending) at one event point. */
  datatype Bucket = Bucket(ins: set<Leg>, del: set<Leg>)

  /** The pick-up and drop-off candidates of one leg. */
  datatype Cands = Cands(pick: set<Leg>, drop: set<Leg>)

  /** The legs of a pool with a different parent id. */
  function Others(pool: set<Leg>, id: int): set<Leg>
  {
    set o | o in pool && o.id != id
  }

  /** The active set after the given event points: deletions first, then insertions, per point. */
  function StatusAfter<P>(queue: map<P, Bucket>, points: seq<P>): set<Leg>
    requires forall k :: 0 <= k < |points| ==> points[k] in queue
  {
    if points == [] then {}
    else
      var p := points[|points| - 1];
      (StatusAfter(queue, points[..|points| - 1]) - queue[p].del) + queue[p].ins
  }

  /** Each deleted leg gets the active legs of other parents as drop-off candidates. */
  function DropStep(out: map<Leg, Cands>, dels: set<Leg>, status: set<Leg>): map<Leg, Cands>
  {
    map x | x in out :: if x in dels then Cands(out[x].pick, out[x].drop + Others(status, x.id)) else out[x]
  }

  /** Each inserted leg gets the pool's legs of other parents as pick-up candidates. */
  function PickStep(out: map<Leg, Cands>, ins: set<Leg>, pool: set<Leg>): map<Leg, Cands>
  {
    map x | x in out :: if x in ins then Cands(out[x].pick + Others(pool, x.id), out[x].drop) else out[x]
  }

  /** The output of the sweep after the given event points. */
  function SweepOut<P>(queue: map<P, Bucket>, points: seq<P>, input: set<Leg>): map<Leg, Cands>
    requires forall k :: 0 <= k < |points| ==> points[k] in queue
  {
    if points == [] then map x | x in input :: Cands({}, {})
    else
      var init := points[..|points| - 1];
      var p := points[|points| - 1];
      var status := StatusAfter(queue, init);
      var afterDel := DropStep(SweepOut(queue, init, input), queue[p].del, status);
      PickStep(afterDel, queue[p].ins, (status - queue[p].del) + queue[p].ins)
  }

  /** The innermost loops: the legs of a pool whose parent id differs. */
  method CandidatesOf(pool: set<Leg>, id: int) returns (r: set<Leg>)
    ensures r == Others(pool, id)
  {
    r := {};
    var rest := pool;
    while rest != {}
      invariant rest <= pool
      invariant r == Others(pool - rest, id)
      decreases rest
    {
      var other :| other in rest;
      if other.id != id {
        r := r + {other};
      }
      rest := rest - {other};
    }
  }

  /** for req_del in queue[stop][1]: the drop-off candidates of the legs ending here. */
  method AddDropCandidates(out: map<Leg, Cands>, dels: set<Leg>, status: set<Leg>) returns (r: map<Leg, Cands>)
    requires dels <= out.Keys
    ensures r == DropStep(out, dels, status)
  {
    r := out;
    var rest := dels;
    while rest != {}
      invariant rest <= dels
      invariant r == DropStep(out, dels - rest, status)
      decreases rest
    {
      var reqDel :| reqDel in rest;
      var others := CandidatesOf(status, reqDel.id);
      r := r[reqDel := Cands(r[reqDel].pick, r[reqDel].drop + others)];
      rest := rest - {reqDel};
    }
  }

  /** for req_ins in queue[stop][0]: the pick-up candidates of the legs starting here. */
  method AddPickCandidates(out: map<Leg, Cands>, ins: set<Leg>, pool: set<Leg>) returns (r: map<Leg, Cands>)
    requires ins <= out.Keys
    ensures r == PickStep(out, ins, pool)
  {
    r := out;
    var rest := ins;
    while rest != {}
      invariant rest <= ins
      invariant r == PickStep(out, ins - rest, pool)
      decreases rest
    {
      var reqIns :| reqIns in rest;
      var others := CandidatesOf(pool, reqIns.id);
      r := r[reqIns := Cands(r[reqIns].pick + others, r[reqIns].drop)];
      rest := rest - {reqIns};
    }
  }

  /**
   * iterate_sweep_line: walks the event points in order, processing the deletions of a point
   * before its insertions. Every queued leg must be an input leg and every event point a queue
   * key (the source's dictionary lookups raise otherwise).
   */
  method IterateSweepLine<P(==)>(queue: map<P, Bucket>, eventPoints: seq<P>, inputPoints: set<Leg>)
    returns (output: map<Leg, Cands>)
    requires forall k :: 0 <= k < |eventPoints| ==> eventPoints[k] in queue
    requires forall p :: p in queue ==> queue[p].ins <= inputPoints && queue[p].del <= inputPoints
    ensures output == SweepOut(queue, eventPoints, inputPoints)
  {
    var statusSet: set<Leg> := {};
    output := map x | x in inputPoints :: Cands({}, {});
    for t := 0 to |eventPoints|
      invariant statusSet == StatusAfter(queue, eventPoints[..t])
      invariant output == SweepOut(queue, eventPoints[..t], inputPoints)
      invariant output.Keys == inputPoints
    {
      var stop := eventPoints[t];
      assert eventPoints[..t + 1][..t] == eventPoints[..t];
      output := AddDropCandidates(output, queue[stop].del, statusSet);
      statusSet := statusSet - queue[stop].del;
      output := AddPickCandidates(output, queue[stop].ins, statusSet + queue[stop].ins);
      statusSet := statusSet + queue[stop].ins;
    }
    assert eventPoints[..|eventPoints|] == eventPoints;
  }

  // ----- the sweep in closed form -----

  /** The position of an element in a sequence (its first occurrence). */
  function Pos<P(==)>(s: seq<P>, p: P): (k: nat)
    requires p in s
    ensures k < |s| && s[k] == p && p !in s[..k]
  {
    if s[0] == p then 0
    else
      var k := Pos(s[1..], p);
      assert s[1..][..k] == s[1..k + 1];
      k + 1
  }

  /** In a sequence without repeats, an element sits at position t exactly when s[t] is it. */
  lemma {:induction false} PosAt<P>(s: seq<P>, p: P, t: nat)
    requires Distinct(s) && p in s && t < |s|
    ensures Pos(s, p) == t <==> s[t] == p
  {
    if s[t] == p {
      DistinctPositions(s, Pos(s, p), t);
    }
  }

  /**
   * The queue a sweep builds over distinct event points: each input leg is inserted at the
   * point insAt names and deleted at the point delAt names, and both points are event points.
   */
  ghost predicate QueueOf<P>(queue: map<P, Bucket>, points: seq<P>, input: set<Leg>,
                                 insAt: Leg -> P, delAt: Leg -> P)
  {
    Distinct(points) &&
    (forall k :: 0 <= k < |points| ==> points[k] in queue) &&
    (forall x :: x in input ==> insAt(x) in points && delAt(x) in points) &&
    (forall p, x :: p in queue ==> (x in queue[p].ins <==> x in input && insAt(x) == p)) &&
    (forall p, x :: p in queue ==> (x in queue[p].del <==> x in input && delAt(x) == p))
  }

  /** Active after the first t points: inserted before t and not deleted after that, before t. */
  ghost predicate ActiveAt<P>(points: seq<P>, insAt: Leg -> P, delAt: Leg -> P, y: Leg, t: int)
    requires insAt(y) in points && delAt(y) in points
  {
    var i := Pos(points, insAt(y));
    var j := Pos(points, delAt(y));
    i < t && !(i < j < t)
  }

  /** The active set in closed form. */
  lemma {:induction false} StatusClosedForm<P>(queue: map<P, Bucket>, points: seq<P>, input: set<Leg>,
                                                   insAt: Leg -> P, delAt: Leg -> P, t: nat)
    requires QueueOf(queue, points, input, insAt, delAt) && t <= |points|
    ensures forall y :: y in StatusAfter(queue, points[..t]) <==>
              y in input && ActiveAt(points, insAt, delAt, y, t)
  {
    if t == 0 {
      assert points[..0] == [];
    } else {
      StatusClosedForm(queue, points, input, insAt, delAt, t - 1);
      assert points[..t][..t - 1] == points[..t - 1];
      var p := points[t - 1];
      forall y
        ensures y in StatusAfter(queue, points[..t]) <==> y in input && ActiveAt(points, insAt, delAt, y, t)
      {
        if y in input {
          PosAt(points, insAt(y), t - 1);
          PosAt(points, delAt(y), t - 1);
        }
      }
    }
  }

  /** The pick-up candidates of x in closed form (i the insertion and j the deletion position). */
  ghost function PickSet<P>(points: seq<P>, input: set<Leg>, insAt: Leg -> P, delAt: Leg -> P, x: Leg): set<Leg>
    requires forall y :: y in input ==> insAt(y) in points && delAt(y) in points
    requires x in input
  {
    set y | y in input && y.id != x.id &&
            var iy := Pos(points, insAt(y));
            var jy := Pos(points, delAt(y));
            var ix := Pos(points, insAt(x));
            iy == ix || (iy < ix && !(iy < jy <= ix))
  }

  /** The drop-off candidates of x in closed form: the legs active when x is deleted. */
  ghost function DropSet<P>(points: seq<P>, input: set<Leg>, insAt: Leg -> P, delAt: Leg -> P, x: Leg): set<Leg>
    requires forall y :: y in input ==> insAt(y) in points && delAt(y) in points
    requires x in input
  {
    set y | y in input && y.id != x.id && ActiveAt(points, insAt, delAt, y, Pos(points, delAt(x)))
  }

  /** A leg's candidates after the first t points, in closed form. */
  ghost function ClosedCands<P>(points: seq<P>, input: set<Leg>, insAt: Leg -> P, delAt: Leg -> P, x: Leg, t: int): Cands
    requires forall y :: y in input ==> insAt(y) in points && delAt(y) in points
    requires x in input
  {
    Cands(if Pos(points, insAt(x)) < t then PickSet(points, input, insAt, delAt, x) else {},
          if Pos(points, delAt(x)) < t then DropSet(points, input, insAt, delAt, x) else {})
  }

  /** The legs deleted at point t are the drop-off candidates' owners there, in closed form. */
  lemma {:induction false} DropSetAt<P>(queue: map<P, Bucket>, points: seq<P>, input: set<Leg>, insAt: Leg -> P, delAt: Leg -> P,
                     t: nat, x: Leg)
    requires QueueOf(queue, points, input, insAt, delAt) && t < |points| && x in input
    requires Pos(points, delAt(x)) == t
    ensures Others(StatusAfter(queue, points[..t]), x.id) == DropSet(points, input, insAt, delAt, x)
  {
    StatusClosedForm(queue, points, input, insAt, delAt, t);
  }

  /** The pool at point t (active after deletions, plus the co-inserted legs), in closed form. */
  lemma {:induction false} PickSetAt<P>(queue: map<P, Bucket>, points: seq<P>, input: set<Leg>, insAt: Leg -> P, delAt: Leg -> P,
                     t: nat, x: Leg)
    requires QueueOf(queue, points, input, insAt, delAt) && t < |points| && x in input
    requires Pos(points, insAt(x)) == t
    ensures Others((StatusAfter(queue, points[..t]) - queue[points[t]].del) + queue[points[t]].ins, x.id) ==
            PickSet(points, input, insAt, delAt, x)
  {
    StatusClosedForm(queue, points, input, insAt, delAt, t);
    forall y | y in input
      ensures (y in queue[points[t]].ins <==> Pos(points, insAt(y)) == t)
      ensures (y in queue[points[t]].del <==> Pos(points, delAt(y)) == t)
    {
      PosAt(points, insAt(y), t);
      PosAt(points, delAt(y), t);
    }
  }

  /** Both steps of one point, for one leg. */
  lemma PointStepAt(out: map<Leg, Cands>, dels: set<Leg>, status: set<Leg>, ins: set<Leg>, pool: set<Leg>, x: Leg)
    requires x in out
    ensures PickStep(DropStep(out, dels, status), ins, pool).Keys == out.Keys
    ensures PickStep(DropStep(out, dels, status), ins, pool)[x] ==
            Cands(out[x].pick + (if x in ins then Others(pool, x.id) else {}),
                  out[x].drop + (if x in dels then Others(status, x.id) else {}))
  {
  }

  /** The sweep's output after one more point, for one leg. */
  lemma {:induction false} SweepOutNext<P>(queue: map<P, Bucket>, points: seq<P>, input: set<Leg>, t: nat, x: Leg)
    requires forall k :: 0 <= k < |points| ==> points[k] in queue
    requires t < |points| && x in SweepOut(queue, points[..t], input)
    ensures SweepOut(queue, points[..t + 1], input).Keys == SweepOut(queue, points[..t], input).Keys
    ensures var p := points[t];
            var status := StatusAfter(queue, points[..t]);
            var prev := SweepOut(queue, points[..t], input)[x];
            SweepOut(queue, points[..t + 1], input)[x] ==
            Cands(prev.pick + (if x in queue[p].ins then Others((status - queue[p].del) + queue[p].ins, x.id) else {}),
                  prev.drop + (if x in queue[p].del then Others(status, x.id) else {}))
  {
    assert points[..t + 1][..t] == points[..t];
    var p := points[t];
    var status := StatusAfter(queue, points[..t]);
    var prev := SweepOut(queue, points[..t], input);
    PointStepAt(prev, queue[p].del, status, queue[p].ins, (status - queue[p].del) + queue[p].ins, x);
  }

  /** One point of the sweep, for the pick-up candidates of one leg. */
  lemma {:induction false} SweepPickStepAt<P>(queue: map<P, Bucket>, points: seq<P>, input: set<Leg>, insAt: Leg -> P, delAt: Leg -> P,
                           t: nat, x: Leg)
    requires QueueOf(queue, points, input, insAt, delAt) && t < |points| && x in input
    requires x in SweepOut(queue, points[..t], input)
    requires SweepOut(queue, points[..t], input)[x].pick == ClosedCands(points, input, insAt, delAt, x, t).pick
    ensures x in SweepOut(queue, points[..t + 1], input)
    ensures SweepOut(queue, points[..t + 1], input)[x].pick == ClosedCands(points, input, insAt, delAt, x, t + 1).pick
  {
    SweepOutNext(queue, points, input, t, x);
    PosAt(points, insAt(x), t);
    if Pos(points, insAt(x)) == t {
      PickSetAt(queue, points, input, insAt, delAt, t, x);
    }
  }

  /** One point of the sweep, for the drop-off candidates of one leg. */
  lemma {:induction false} SweepDropStepAt<P>(queue: map<P, Bucket>, points: seq<P>, input: set<Leg>, insAt: Leg -> P, delAt: Leg -> P,
                           t: nat, x: Leg)
    requires QueueOf(queue, points, input, insAt, delAt) && t < |points| && x in input
    requires x in SweepOut(queue, points[..t], input)
    requires SweepOut(queue, points[..t], input)[x].drop == ClosedCands(points, input, insAt, delAt, x, t).drop
    ensures x in SweepOut(queue, points[..t + 1], input)
    ensures SweepOut(queue, points[..t + 1], input)[x].drop == ClosedCands(points, input, insAt, delAt, x, t + 1).drop
  {
    SweepOutNext(queue, points, input, t, x);
    PosAt(points, delAt(x), t);
    if Pos(points, delAt(x)) == t {
      DropSetAt(queue, points, input, insAt, delAt, t, x);
    }
  }

  /** One point of the sweep, for one leg. */
  lemma {:induction false} SweepStepAt<P>(queue: map<P, Bucket>, points: seq<P>, input: set<Leg>, insAt: Leg -> P, delAt: Leg -> P,
                       t: nat, x: Leg)
    requires QueueOf(queue, points, input, insAt, delAt) && t < |points| && x in input
    requires SweepOut(queue, points[..t], input).Keys == input
    requires SweepOut(queue, points[..t], input)[x] ==
             ClosedCands(points, input, insAt, delAt, x, t)
    ensures SweepOut(queue, points[..t + 1], input).Keys == input
    ensures SweepOut(queue, points[..t + 1], input)[x] ==
            ClosedCands(points, input, insAt, delAt, x, t + 1)
  {
    SweepOutNext(queue, points, input, t, x);
    SweepPickStepAt(queue, points, input, insAt, delAt, t, x);
    SweepDropStepAt(queue, points, input, insAt, delAt, t, x);
  }

  /**
   * The sweep's output in closed form: after the first t points, a leg has its pick-up
   * candidates once its insertion point is passed and its drop-off candidates once its deletion
   * point is passed, and none before.
   */
  lemma {:induction false} SweepClosedForm<P>(queue: map<P, Bucket>, points: seq<P>, input: set<Leg>,
                                              insAt: Leg -> P, delAt: Leg -> P, t: nat)
    requires QueueOf(queue, points, input, insAt, delAt) && t <= |points|
    ensures SweepOut(queue, points[..t], input).Keys == input
    ensures forall x :: x in input ==>
              SweepOut(queue, points[..t], input)[x] ==
              ClosedCands(points, input, insAt, delAt, x, t)
  {
    if t == 0 {
      assert points[..0] == [];
    } else {
      SweepClosedForm(queue, points, input, insAt, delAt, t - 1);
      forall x | x in input
        ensures SweepOut(queue, points[..t], input).Keys == input
        ensures SweepOut(queue, points[..t], input)[x] ==
                ClosedCands(points, input, insAt, delAt, x, t)
      {
        SweepStepAt(queue, points, input, insAt, delAt, t - 1, x);
      }
      assert points[..t][..t - 1] == points[..t - 1];
    }
  }

  /**
   * For legs that end after they start (in the sweep's order), the candidates are interval
   * overlaps: y is a pick-up candidate of x when y starts no later than x and ends after x
   * starts, and a drop-off candidate when y starts before x ends and ends no earlier. A leg
   * ending exactly where x starts is thus not a pick-up candidate, and no leg is a candidate
   * of itself or of a leg of the same parent.
   */
  lemma {:induction false} SweepOverlap<P>(queue: map<P, Bucket>, points: seq<P>, input: set<Leg>, insAt: Leg -> P, delAt: Leg -> P,
                        x: Leg)
    requires QueueOf(queue, points, input, insAt, delAt) && x in input
    requires forall y :: y in input ==> Pos(points, insAt(y)) < Pos(points, delAt(y))
    ensures x in SweepOut(queue, points, input)
    ensures forall y :: y in SweepOut(queue, points, input)[x].pick <==>
              y in input && y.id != x.id &&
              Pos(points, insAt(y)) <= Pos(points, insAt(x)) < Pos(points, delAt(y))
    ensures forall y :: y in SweepOut(queue, points, input)[x].drop <==>
              y in input && y.id != x.id &&
              Pos(points, insAt(y)) < Pos(points, delAt(x)) <= Pos(points, delAt(y))
  {
    SweepClosedForm(queue, points, input, insAt, delAt, |points|);
    assert points[..|points|] == points;
  }

  // ----- sweep_line_local and sweep_line_time -----

  /** The queue a sweep fills from its legs: inserted at insAt(leg), deleted at delAt(leg). */
  function QueueFor<P(==)>(keys: set<P>, splits: set<Leg>, insAt: Leg -> P, delAt: Leg -> P): map<P, Bucket>
  {
    map p | p in keys :: Bucket(set x | x in splits && insAt(x) == p, set x | x in splits && delAt(x) == p)
  }

  /** Adding one leg to the queue: to the insertion set of its insertion point, then to the
   *  deletion set of its deletion point. */
  lemma QueueForAdd<P>(keys: set<P>, done: set<Leg>, x: Leg, insAt: Leg -> P, delAt: Leg -> P)
    requires insAt(x) in keys && delAt(x) in keys
    ensures var q := QueueFor(keys, done, insAt, delAt);
            var q1 := q[insAt(x) := Bucket(q[insAt(x)].ins + {x}, q[insAt(x)].del)];
            QueueFor(keys, done + {x}, insAt, delAt) ==
            q1[delAt(x) := Bucket(q1[delAt(x)].ins, q1[delAt(x)].del + {x})]
  {
    var q := QueueFor(keys, done, insAt, delAt);
    var q1 := q[insAt(x) := Bucket(q[insAt(x)].ins + {x}, q[insAt(x)].del)];
    var q2 := q1[delAt(x) := Bucket(q1[delAt(x)].ins, q1[delAt(x)].del + {x})];
    var qn := QueueFor(keys, done + {x}, insAt, delAt);
    forall p | p in keys
      ensures qn[p] == q2[p]
    {
      assert qn[p].ins == q2[p].ins;
      assert qn[p].del == q2[p].del;
    }
    assert qn.Keys == q2.Keys;
  }

  /**
   * The loop that fills the queue: each leg is added to the insertion set of insAt(leg) and the
   * deletion set of delAt(leg); a point that is not a key raises KeyError.
   */
  method FillQueue<P(==)>(keys: set<P>, splits: set<Leg>, insAt: Leg -> P, delAt: Leg -> P)
    returns (r: Result<map<P, Bucket>>)
    ensures r.Failure? <==> exists x :: x in splits && (insAt(x) !in keys || delAt(x) !in keys)
    ensures r.Success? ==> r.value == QueueFor(keys, splits, insAt, delAt)
  {
    var queue := map p | p in keys :: Bucket({}, {});
    forall p | p in keys
      ensures QueueFor(keys, {}, insAt, delAt)[p] == Bucket({}, {})
    {
      assert QueueFor(keys, {}, insAt, delAt)[p].ins == {};
      assert QueueFor(keys, {}, insAt, delAt)[p].del == {};
    }
    assert queue == QueueFor(keys, {}, insAt, delAt);
    var rest := splits;
    assert splits - rest == {};
    while rest != {}
      invariant rest <= splits
      invariant forall x :: x in splits - rest ==> insAt(x) in keys && delAt(x) in keys
      invariant queue == QueueFor(keys, splits - rest, insAt, delAt)
      decreases rest
    {
      var splitReq :| splitReq in rest;
      var ip := insAt(splitReq);
      var dp := delAt(splitReq);
      if ip !in queue || dp !in queue {
        return Failure("KeyError");
      }
      QueueForAdd(keys, splits - rest, splitReq, insAt, delAt);
      queue := queue[ip := Bucket(queue[ip].ins + {splitReq}, queue[ip].del)];
      queue := queue[dp := Bucket(queue[dp].ins, queue[dp].del + {splitReq})];
      assert splits - (rest - {splitReq}) == (splits - rest) + {splitReq};
      rest := rest - {splitReq};
    }
    assert splits - rest == splits;
    r := Success(queue);
  }

  /** A sequence reversed (list.reverse). */
  function Reversed<T>(s: seq<T>): (r: seq<T>)
    ensures |r| == |s| && forall i :: 0 <= i < |s| ==> r[i] == s[|s| - 1 - i]
  {
    if s == [] then [] else Reversed(s[1..]) + [s[0]]
  }

  /** The points a leg is inserted and deleted at, in the two sweeps. */
  function PickUpOf(x: Leg): Stop { x.pickUp }
  function DropOffOf(x: Leg): Stop { x.dropOff }
  function EarlStartOf(x: Leg): TimeImpl { x.earlStart }
  function LatestArrOf(x: Leg): TimeImpl { x.latestArr }

  /** The stops in sweep order: the line's order, reversed when direction is 1. */
  function EventPoints(stops: seq<Stop>, direction: int): (r: seq<Stop>)
    ensures forall v :: v in r <==> v in stops
    ensures Distinct(stops) ==> Distinct(r)
  {
    if direction == 1 then
      var r := Reversed(stops);
      assert forall v :: v in stops ==> v in r by {
        forall v | v in stops
          ensures v in r
        {
          var i :| 0 <= i < |stops| && stops[i] == v;
          assert r[|stops| - 1 - i] == v;
        }
      }
      r
    else stops
  }

  /**
   * sweep_line_local: the spatial sweep of the legs of one line and direction, inserting each
   * at its pick-up stop and deleting it at its drop-off stop. A leg with a stop off the line
   * raises KeyError.
   */
  method SweepLineLocal(splitsInDir: set<Leg>, line: Line, direction: int) returns (r: Result<map<Leg, Cands>>)
    ensures r.Failure? <==>
              exists x :: x in splitsInDir && (x.pickUp !in line.stops || x.dropOff !in line.stops)
    ensures r.Success? ==>
              r.value == SweepOut(QueueFor((set v | v in line.stops), splitsInDir, PickUpOf, DropOffOf),
                                  EventPoints(line.stops, direction), splitsInDir)
  {
    var filled := FillQueue((set v | v in line.stops), splitsInDir, PickUpOf, DropOffOf);
    if filled.Failure? {
      return Failure(filled.error);
    }
    var queue := filled.value;
    var eventPoints := EventPoints(line.stops, direction);
    var output := IterateSweepLine(queue, eventPoints, splitsInDir);
    r := Success(output);
  }

  /** The minute total, the key time points are sorted by. */
  function Minutes(t: TimeImpl): real
  {
    GetInMinutes(t)
  }

  /** The event times of the temporal sweep: every earliest start and latest arrival. */
  function TimeKeys(splits: set<Leg>): set<TimeImpl>
  {
    (set x | x in splits :: x.earlStart) + (set x | x in splits :: x.latestArr)
  }

  /**
   * sweep_line_time: the temporal sweep, inserting each leg at its earliest start and deleting
   * it at its latest arrival, over the distinct time points in ascending order. The ghost output
   * is that order.
   */
  method SweepLineTime(splitsInDir: set<Leg>) returns (output: map<Leg, Cands>, ghost eventPoints: seq<TimeImpl>)
    ensures Distinct(eventPoints) && (forall t :: t in eventPoints <==> t in TimeKeys(splitsInDir))
    ensures SortedBy(eventPoints, Minutes)
    ensures output == SweepOut(QueueFor(TimeKeys(splitsInDir), splitsInDir, EarlStartOf, LatestArrOf),
                               eventPoints, splitsInDir)
  {
    var keys := TimeKeys(splitsInDir);
    var filled := FillQueue(keys, splitsInDir, EarlStartOf, LatestArrOf);
    assert filled.Success?;
    var queue := filled.value;
    var order := IterationOrder(keys);
    var points := SortBy(order, Minutes);
    forall t
      ensures t in points <==> t in keys
    {
      SortByMembers(order, Minutes, t);
    }
    SortByDistinct(order, Minutes);
    output := IterateSweepLine(queue, points, splitsInDir);
    eventPoints := points;
  }

  /** A filled queue over repeat-free event points that are exactly its keys is a sweep queue. */
  lemma QueueForIsQueueOf<P>(keys: set<P>, points: seq<P>, splits: set<Leg>, insAt: Leg -> P, delAt: Leg -> P)
    requires Distinct(points) && (forall p :: p in points <==> p in keys)
    requires forall x :: x in splits ==> insAt(x) in keys && delAt(x) in keys
    ensures QueueOf(QueueFor(keys, splits, insAt, delAt), points, splits, insAt, delAt)
  {
  }

  /**
   * The conditions of a filled sweep: the event points are the keys, each once, and every leg
   * is inserted at a key before the key where it is deleted.
   */
  ghost predicate SweepReady<P(!new)>(keys: set<P>, points: seq<P>, splits: set<Leg>, insAt: Leg -> P, delAt: Leg -> P)
  {
    && Distinct(points) && (forall p :: p in points <==> p in keys)
    && (forall y :: y in splits ==> insAt(y) in keys && delAt(y) in keys)
    && (forall y :: y in splits ==> Pos(points, insAt(y)) < Pos(points, delAt(y)))
  }

  /** SweepOverlap for a filled queue. */
  lemma {:induction false} FilledSweepOverlap<P(!new)>(keys: set<P>, points: seq<P>, splits: set<Leg>, insAt: Leg -> P, delAt: Leg -> P, x: Leg)
    requires SweepReady(keys, points, splits, insAt, delAt) && x in splits
    ensures var out := SweepOut(QueueFor(keys, splits, insAt, delAt), points, splits);
            x in out &&
            (forall y :: y in out[x].pick <==>
               y in splits && y.id != x.id && Pos(points, insAt(y)) <= Pos(points, insAt(x)) < Pos(points, delAt(y))) &&
            (forall y :: y in out[x].drop <==>
               y in splits && y.id != x.id && Pos(points, insAt(y)) < Pos(points, delAt(x)) <= Pos(points, delAt(y)))
  {
    QueueForIsQueueOf(keys, points, splits, insAt, delAt);
    SweepOverlap(QueueFor(keys, splits, insAt, delAt), points, splits, insAt, delAt, x);
  }

  /** On a line visiting each stop once, the spatial sweep meets the conditions of a filled sweep. */
  lemma {:induction false} StopsSweepReady(splitsInDir: set<Leg>, line: Line, direction: int)
    requires Distinct(line.stops)
    requires forall y :: y in splitsInDir ==> y.pickUp in line.stops && y.dropOff in line.stops
    requires forall y :: y in splitsInDir ==>
               Pos(EventPoints(line.stops, direction), y.pickUp) < Pos(EventPoints(line.stops, direction), y.dropOff)
    ensures SweepReady((set v | v in line.stops), EventPoints(line.stops, direction), splitsInDir, PickUpOf, DropOffOf)
  {
  }

  /**
   * The spatial pick-up candidates: on a line visiting each stop once, for legs travelling in
   * the sweep's direction, y is a pick-up candidate of x when y boards at or before x's pick-up
   * stop and leaves after it (positions in sweep order).
   */
  lemma {:induction false} LocalPickCandidates(splitsInDir: set<Leg>, line: Line, direction: int, x: Leg)
    requires Distinct(line.stops) && x in splitsInDir
    requires forall y :: y in splitsInDir ==> y.pickUp in line.stops && y.dropOff in line.stops
    requires forall y :: y in splitsInDir ==>
               Pos(EventPoints(line.stops, direction), y.pickUp) < Pos(EventPoints(line.stops, direction), y.dropOff)
    ensures var pts := EventPoints(line.stops, direction);
            var out := SweepOut(QueueFor((set v | v in line.stops), splitsInDir, PickUpOf, DropOffOf), pts, splitsInDir);
            x in out &&
            forall y :: y in out[x].pick <==>
              y in splitsInDir && y.id != x.id && Pos(pts, y.pickUp) <= Pos(pts, x.pickUp) < Pos(pts, y.dropOff)
  {
    StopsSweepReady(splitsInDir, line, direction);
    FilledSweepOverlap((set v | v in line.stops), EventPoints(line.stops, direction), splitsInDir,
                       PickUpOf, DropOffOf, x);
  }

  /**
   * The spatial drop-off candidates: under the same conditions, y is a drop-off candidate of x
   * when y boards before x's drop-off stop and leaves at or after it.
   */
  lemma {:induction false} LocalDropCandidates(splitsInDir: set<Leg>, line: Line, direction: int, x: Leg)
    requires Distinct(line.stops) && x in splitsInDir
    requires forall y :: y in splitsInDir ==> y.pickUp in line.stops && y.dropOff in line.stops
    requires forall y :: y in splitsInDir ==>
               Pos(EventPoints(line.stops, direction), y.pickUp) < Pos(EventPoints(line.stops, direction), y.dropOff)
    ensures var pts := EventPoints(line.stops, direction);
            var out := SweepOut(QueueFor((set v | v in line.stops), splitsInDir, PickUpOf, DropOffOf), pts, splitsInDir);
            x in out &&
            forall y :: y in out[x].drop <==>
              y in splitsInDir && y.id != x.id && Pos(pts, y.pickUp) < Pos(pts, x.dropOff) <= Pos(pts, y.dropOff)
  {
    StopsSweepReady(splitsInDir, line, direction);
    FilledSweepOverlap((set v | v in line.stops), EventPoints(line.stops, direction), splitsInDir,
                       PickUpOf, DropOffOf, x);
  }

  /** In a sequence sorted by minutes, an earlier time sits at an earlier position. */
  lemma {:induction false} SortedPositions(points: seq<TimeImpl>, a: TimeImpl, b: TimeImpl)
    requires SortedBy(points, Minutes) && a in points && b in points
    ensures Minutes(a) < Minutes(b) ==> Pos(points, a) < Pos(points, b)
    ensures Pos(points, a) <= Pos(points, b) ==> Minutes(a) <= Minutes(b)
  {
    if Pos(points, b) <= Pos(points, a) && Pos(points, b) != Pos(points, a) {
      assert Minutes(points[Pos(points, b)]) <= Minutes(points[Pos(points, a)]);
    }
    if Pos(points, a) < Pos(points, b) {
      assert Minutes(points[Pos(points, a)]) <= Minutes(points[Pos(points, b)]);
    }
  }

  /** Positions in a sorted, repeat-free sequence of times with distinct minute totals follow the minutes. */
  lemma {:induction false} PositionsFollowMinutes(keys: set<TimeImpl>, points: seq<TimeImpl>)
    requires Distinct(points) && (forall t :: t in points <==> t in keys) && SortedBy(points, Minutes)
    requires forall a, b :: a in keys && b in keys && a != b ==> Minutes(a) != Minutes(b)
    ensures forall a, b :: a in keys && b in keys ==>
              (Pos(points, a) <= Pos(points, b) <==> Minutes(a) <= Minutes(b)) &&
              (Pos(points, a) < Pos(points, b) <==> Minutes(a) < Minutes(b))
  {
    forall a, b | a in keys && b in keys
      ensures Pos(points, a) <= Pos(points, b) <==> Minutes(a) <= Minutes(b)
      ensures Pos(points, a) < Pos(points, b) <==> Minutes(a) < Minutes(b)
    {
      SortedPositions(points, a, b);
      SortedPositions(points, b, a);
      if a != b {
        DistinctPosNe(points, a, b);
      }
    }
  }

  /** Every leg's earliest start and latest arrival are among the time keys. */
  lemma TimeKeysOfLegs(splits: set<Leg>)
    ensures forall y :: y in splits ==> EarlStartOf(y) in TimeKeys(splits) && LatestArrOf(y) in TimeKeys(splits)
  {
    forall y | y in splits
      ensures EarlStartOf(y) in TimeKeys(splits) && LatestArrOf(y) in TimeKeys(splits)
    {
      assert y.earlStart in (set x | x in splits :: x.earlStart);
      assert y.latestArr in (set x | x in splits :: x.latestArr);
    }
  }

  /** Two event times compare by position as they compare by minutes. */
  lemma {:induction false} PosFollowsMinutes(keys: set<TimeImpl>, points: seq<TimeImpl>, a: TimeImpl, b: TimeImpl)
    requires Distinct(points) && (forall t :: t in points <==> t in keys) && SortedBy(points, Minutes)
    requires forall a, b :: a in keys && b in keys && a != b ==> Minutes(a) != Minutes(b)
    requires a in keys && b in keys
    ensures Pos(points, a) <= Pos(points, b) <==> Minutes(a) <= Minutes(b)
    ensures Pos(points, a) < Pos(points, b) <==> Minutes(a) < Minutes(b)
  {
    SortedPositions(points, a, b);
    SortedPositions(points, b, a);
    if a != b {
      DistinctPosNe(points, a, b);
    }
  }

  /**
   * The conditions of the temporal sweep: the event times are the legs' window ends, each once,
   * ordered by minutes with no two at the same minute, and every window opens before it closes.
   */
  ghost predicate TimeSweepReady(splitsInDir: set<Leg>, points: seq<TimeImpl>)
  {
    && Distinct(points) && (forall t :: t in points <==> t in TimeKeys(splitsInDir))
    && SortedBy(points, Minutes)
    && (forall a, b :: a in TimeKeys(splitsInDir) && b in TimeKeys(splitsInDir) && a != b ==> Minutes(a) != Minutes(b))
    && (forall y :: y in splitsInDir ==> Minutes(y.earlStart) < Minutes(y.latestArr))
  }

  /** Under the conditions of the temporal sweep every leg's window is a pair of keys in sweep order. */
  lemma {:induction false} TimeWindowsInOrder(splitsInDir: set<Leg>, points: seq<TimeImpl>)
    requires TimeSweepReady(splitsInDir, points)
    ensures forall y :: y in splitsInDir ==> EarlStartOf(y) in TimeKeys(splitsInDir) && LatestArrOf(y) in TimeKeys(splitsInDir)
    ensures forall y :: y in splitsInDir ==> Pos(points, EarlStartOf(y)) < Pos(points, LatestArrOf(y))
    ensures SweepReady(TimeKeys(splitsInDir), points, splitsInDir, EarlStartOf, LatestArrOf)
  {
    TimeKeysOfLegs(splitsInDir);
    forall y | y in splitsInDir
      ensures Pos(points, EarlStartOf(y)) < Pos(points, LatestArrOf(y))
    {
      PosFollowsMinutes(TimeKeys(splitsInDir), points, y.earlStart, y.latestArr);
    }
  }

  /** The filled temporal sweep: pick-up candidates by sweep positions of the legs' window ends. */
  lemma {:induction false} FilledTimePick(splitsInDir: set<Leg>, points: seq<TimeImpl>, x: Leg, out: map<Leg, Cands>)
    requires TimeSweepReady(splitsInDir, points) && x in splitsInDir
    requires out == SweepOut(QueueFor(TimeKeys(splitsInDir), splitsInDir, EarlStartOf, LatestArrOf), points, splitsInDir)
    ensures x in out
    ensures forall y :: y in out[x].pick <==> y in splitsInDir && y.id != x.id && Pos(points, y.earlStart) <= Pos(points, x.earlStart) < Pos(points, y.latestArr)
  {
    TimeWindowsInOrder(splitsInDir, points);
    FilledSweepOverlap(TimeKeys(splitsInDir), points, splitsInDir, EarlStartOf, LatestArrOf, x);
  }

  /** The filled temporal sweep: drop-off candidates by sweep positions of the legs' window ends. */
  lemma {:induction false} FilledTimeDrop(splitsInDir: set<Leg>, points: seq<TimeImpl>, x: Leg, out: map<Leg, Cands>)
    requires TimeSweepReady(splitsInDir, points) && x in splitsInDir
    requires out == SweepOut(QueueFor(TimeKeys(splitsInDir), splitsInDir, EarlStartOf, LatestArrOf), points, splitsInDir)
    ensures x in out
    ensures forall y :: y in out[x].drop <==> y in splitsInDir && y.id != x.id && Pos(points, y.earlStart) < Pos(points, x.latestArr) <= Pos(points, y.latestArr)
  {
    TimeWindowsInOrder(splitsInDir, points);
    FilledSweepOverlap(TimeKeys(splitsInDir), points, splitsInDir, EarlStartOf, LatestArrOf, x);
  }

  /** Pick-up candidates of x given by sweep positions are given by minutes just as well. */
  lemma {:induction false} PickInMinutes(splitsInDir: set<Leg>, points: seq<TimeImpl>, x: Leg, c: Cands)
    requires TimeSweepReady(splitsInDir, points) && x in splitsInDir
    requires forall y :: y in c.pick <==>
               y in splitsInDir && y.id != x.id && Pos(points, y.earlStart) <= Pos(points, x.earlStart) < Pos(points, y.latestArr)
    ensures forall y :: y in c.pick <==>
              y in splitsInDir && y.id != x.id && Minutes(y.earlStart) <= Minutes(x.earlStart) < Minutes(y.latestArr)
  {
    TimeKeysOfLegs(splitsInDir);
    forall y | y in splitsInDir
      ensures Pos(points, y.earlStart) <= Pos(points, x.earlStart) <==> Minutes(y.earlStart) <= Minutes(x.earlStart)
      ensures Pos(points, x.earlStart) < Pos(points, y.latestArr) <==> Minutes(x.earlStart) < Minutes(y.latestArr)
    {
      PosFollowsMinutes(TimeKeys(splitsInDir), points, y.earlStart, x.earlStart);
      PosFollowsMinutes(TimeKeys(splitsInDir), points, x.earlStart, y.latestArr);
    }
  }

  /** Drop-off candidates of x given by sweep positions are given by minutes just as well. */
  lemma {:induction false} DropInMinutes(splitsInDir: set<Leg>, points: seq<TimeImpl>, x: Leg, c: Cands)
    requires TimeSweepReady(splitsInDir, points) && x in splitsInDir
    requires forall y :: y in c.drop <==>
               y in splitsInDir && y.id != x.id && Pos(points, y.earlStart) < Pos(points, x.latestArr) <= Pos(points, y.latestArr)
    ensures forall y :: y in c.drop <==>
              y in splitsInDir && y.id != x.id && Minutes(y.earlStart) < Minutes(x.latestArr) <= Minutes(y.latestArr)
  {
    TimeKeysOfLegs(splitsInDir);
    forall y | y in splitsInDir
      ensures Pos(points, y.earlStart) < Pos(points, x.latestArr) <==> Minutes(y.earlStart) < Minutes(x.latestArr)
      ensures Pos(points, x.latestArr) <= Pos(points, y.latestArr) <==> Minutes(x.latestArr) <= Minutes(y.latestArr)
    {
      PosFollowsMinutes(TimeKeys(splitsInDir), points, y.earlStart, x.latestArr);
      PosFollowsMinutes(TimeKeys(splitsInDir), points, x.latestArr, y.latestArr);
    }
  }

  /** TimePickCandidates for a given sweep output. */
  lemma {:induction false} TimePickOf(splitsInDir: set<Leg>, points: seq<TimeImpl>, x: Leg, out: map<Leg, Cands>)
    requires TimeSweepReady(splitsInDir, points) && x in splitsInDir
    requires out == SweepOut(QueueFor(TimeKeys(splitsInDir), splitsInDir, EarlStartOf, LatestArrOf), points, splitsInDir)
    ensures x in out
    ensures forall y :: y in out[x].pick <==> y in splitsInDir && y.id != x.id && Minutes(y.earlStart) <= Minutes(x.earlStart) < Minutes(y.latestArr)
  {
    FilledTimePick(splitsInDir, points, x, out);
    PickInMinutes(splitsInDir, points, x, out[x]);
  }

  /**
   * The temporal pick-up candidates: under those conditions, y is a pick-up candidate of x when
   * y's window opens no later than x's and closes after x's opens.
   */
  lemma {:induction false} TimePickCandidates(splitsInDir: set<Leg>, points: seq<TimeImpl>, x: Leg)
    requires TimeSweepReady(splitsInDir, points) && x in splitsInDir
    ensures var out := SweepOut(QueueFor(TimeKeys(splitsInDir), splitsInDir, EarlStartOf, LatestArrOf), points, splitsInDir);
            x in out &&
            forall y :: y in out[x].pick <==>
              y in splitsInDir && y.id != x.id && Minutes(y.earlStart) <= Minutes(x.earlStart) < Minutes(y.latestArr)
  {
    var out := SweepOut(QueueFor(TimeKeys(splitsInDir), splitsInDir, EarlStartOf, LatestArrOf), points, splitsInDir);
    TimePickOf(splitsInDir, points, x, out);
  }

  /** TimeDropCandidates for a given sweep output. */
  lemma {:induction false} TimeDropOf(splitsInDir: set<Leg>, points: seq<TimeImpl>, x: Leg, out: map<Leg, Cands>)
    requires TimeSweepReady(splitsInDir, points) && x in splitsInDir
    requires out == SweepOut(QueueFor(TimeKeys(splitsInDir), splitsInDir, EarlStartOf, LatestArrOf), points, splitsInDir)
    ensures x in out
    ensures forall y :: y in out[x].drop <==> y in splitsInDir && y.id != x.id && Minutes(y.earlStart) < Minutes(x.latestArr) <= Minutes(y.latestArr)
  {
    FilledTimeDrop(splitsInDir, points, x, out);
    DropInMinutes(splitsInDir, points, x, out[x]);
  }

  /**
   * The temporal drop-off candidates: under the same conditions, y is a drop-off candidate of x
   * when y's window opens before x's closes and closes no earlier.
   */
  lemma {:induction false} TimeDropCandidates(splitsInDir: set<Leg>, points: seq<TimeImpl>, x: Leg)
    requires TimeSweepReady(splitsInDir, points) && x in splitsInDir
    ensures var out := SweepOut(QueueFor(TimeKeys(splitsInDir), splitsInDir, EarlStartOf, LatestArrOf), points, splitsInDir);
            x in out &&
            forall y :: y in out[x].drop <==>
              y in splitsInDir && y.id != x.id && Minutes(y.earlStart) < Minutes(x.latestArr) <= Minutes(y.latestArr)
  {
    var out := SweepOut(QueueFor(TimeKeys(splitsInDir), splitsInDir, EarlStartOf, LatestArrOf), points, splitsInDir);
    TimeDropOf(splitsInDir, points, x, out);
  }

  /** Distinct elements sit at distinct positions. */
  lemma {:induction false} DistinctPosNe<P>(s: seq<P>, a: P, b: P)
    requires a in s && b in s && a != b
    ensures Pos(s, a) != Pos(s, b)
  {
  }

  // ----- the candidate aggregation in make_plan -----

  /** The sweep output has one entry per input leg. */
  lemma {:induction false} SweepOutKeys<P>(queue: map<P, Bucket>, points: seq<P>, input: set<Leg>)
    requires forall k :: 0 <= k < |points| ==> points[k] in queue
    ensures SweepOut(queue, points, input).Keys == input
  {
    if points != [] {
      SweepOutKeys(queue, points[..|points| - 1], input);
    }
  }

  /**
   * The aggregation loop of make_plan: for every leg of the spatial result, the pick-up and the
   * drop-off candidates are those of both sweeps. A leg missing from the temporal result raises
   * KeyError.
   */
  method AggregateCandidates(local: map<Leg, Cands>, time: map<Leg, Cands>) returns (r: Result<map<Leg, Cands>>)
    ensures r.Failure? <==> exists x :: x in local && x !in time
    ensures r.Success? ==> r.value.Keys == local.Keys
    ensures r.Success? ==>
              forall x :: x in r.value ==>
                r.value[x].pick == local[x].pick * time[x].pick && r.value[x].drop == local[x].drop * time[x].drop
  {
    var agg: map<Leg, Cands> := map[];
    var rest := local.Keys;
    while rest != {}
      invariant rest <= local.Keys
      invariant agg.Keys == local.Keys - rest
      invariant forall x :: x in agg ==>
                  x in time && agg[x] == Cands(local[x].pick * time[x].pick, local[x].drop * time[x].drop)
      decreases rest
    {
      var x :| x in rest;
      if x !in time {
        return Failure("KeyError: leg missing from the temporal sweep");
      }
      agg := agg[x := Cands(local[x].pick * time[x].pick, local[x].drop * time[x].drop)];
      rest := rest - {x};
    }
    r := Success(agg);
  }

  /** The two sweeps over the same legs never miss a key, so the aggregation succeeds on them. */
  lemma {:induction false} SweepsAggregate<P, Q>(qa: map<P, Bucket>, pa: seq<P>, qb: map<Q, Bucket>, pb: seq<Q>, input: set<Leg>)
    requires forall k :: 0 <= k < |pa| ==> pa[k] in qa
    requires forall k :: 0 <= k < |pb| ==> pb[k] in qb
    ensures forall x :: x in SweepOut(qa, pa, input) ==> x in SweepOut(qb, pb, input)
  {
    SweepOutKeys(qa, pa, input);
    SweepOutKeys(qb, pb, input);
  }

  // ----- EventBasedMILP.__init__: line_max -----

  /** The largest capacity among the buses on a line, or 0 (the initial value) if none is larger. */
  function MaxCapacity(buses: seq<Bus>, l: Line): (c: int)
    ensures c >= 0
    ensures forall b :: b in buses && b.line == l ==> b.capacity <= c
    ensures c == 0 || exists b :: b in buses && b.line == l && b.capacity == c
  {
    if buses == [] then 0
    else
      var rest := MaxCapacity(buses[..|buses| - 1], l);
      var b := buses[|buses| - 1];
      assert buses == buses[..|buses| - 1] + [b];
      if b.line == l && rest < b.capacity then b.capacity else rest
  }

  /**
   * line_max: one entry per line served by some bus, starting at 0 and raised to every larger
   * capacity of a bus on that line.
   */
  method LineMax(buses: seq<Bus>) returns (m: map<Line, int>)
    ensures m.Keys == LinesOf(buses)
    ensures forall l :: l in m ==> m[l] == MaxCapacity(buses, l)
  {
    m := map l | l in LinesOf(buses) :: 0;
    for i := 0 to |buses|
      invariant m.Keys == LinesOf(buses)
      invariant forall l :: l in m ==> m[l] == MaxCapacity(buses[..i], l)
    {
      m := RaiseLine(m, buses, i);
    }
    assert buses[..|buses|] == buses;
  }

  /** The body of the line_max loop: bus i raises its line's entry to its capacity if that is larger. */
  method RaiseLine(m: map<Line, int>, buses: seq<Bus>, i: nat) returns (next: map<Line, int>)
    requires i < |buses| && m.Keys == LinesOf(buses)
    requires forall l :: l in m ==> m[l] == MaxCapacity(buses[..i], l)
    ensures next.Keys == LinesOf(buses)
    ensures forall l :: l in next ==> next[l] == MaxCapacity(buses[..i + 1], l)
  {
    var bus := buses[i];
    MaxCapacityStep(buses, i);
    next := m;
    if m[bus.line] < bus.capacity {
      next := m[bus.line := bus.capacity];
    }
  }

  /** One more bus raises the maximum of its own line alone, and only if it is larger. */
  lemma MaxCapacityStep(buses: seq<Bus>, i: nat)
    requires i < |buses|
    ensures buses[i].line in LinesOf(buses)
    ensures forall l :: MaxCapacity(buses[..i + 1], l) ==
              if buses[i].line == l && MaxCapacity(buses[..i], l) < buses[i].capacity then buses[i].capacity
              else MaxCapacity(buses[..i], l)
  {
    assert buses[..i + 1][..i] == buses[..i];
    assert buses[i] in buses;
  }

  // ----- get_permutations -----

  /** The parent ids of a set of legs. */
  function IdsOf(s: set<Leg>): set<int>
  {
    set x | x in s :: x.id
  }

  /** No two legs of the set share a parent id. */
  predicate DistinctIds(s: set<Leg>)
  {
    forall a, b :: a in s && b in s && a.id == b.id ==> a == b
  }

  /** The first index from `index` on whose candidate has an id not yet taken (the while loop). */
  function NextFree(cands: seq<Leg>, ids: set<int>, index: nat): (k: nat)
    ensures index <= k
    ensures k < |cands| ==> cands[k].id !in ids
    decreases |cands| - index
  {
    if index < |cands| && cands[index].id in ids then NextFree(cands, ids, index + 1) else index
  }

  /** Every candidate the while loop skips has an id already taken. */
  lemma {:induction false} NextFreeSkips(cands: seq<Leg>, ids: set<int>, index: nat, j: nat)
    requires index <= j < NextFree(cands, ids, index)
    ensures j < |cands| && cands[j].id in ids
    decreases |cands| - index
  {
    if j > index {
      NextFreeSkips(cands, ids, index + 1, j);
    }
  }

  /**
   * The passenger sets get_permutations makes events of, in the order it makes them: while the
   * current set is below the line's maximum capacity, add the next candidate with a new parent
   * id and go on from it, as long as the grown set is feasible.
   */
  function PermChain(cap: int, isFeasible: (Leg, set<Leg>, bool) -> bool, user: Leg, cands: seq<Leg>,
                     curr: set<Leg>, index: nat, pickUp: bool): seq<set<Leg>>
    decreases |cands| - index
  {
    if |curr| < cap then
      var k := NextFree(cands, IdsOf(curr), index);
      if k < |cands| && isFeasible(user, curr + {cands[k]}, pickUp) then
        [curr + {cands[k]}] + PermChain(cap, isFeasible, user, cands, curr + {cands[k]}, k + 1, pickUp)
      else []
    else []
  }

  /** The pick-up or drop-off event of the user leg with the given passenger set. */
  function MakeEvent(user: Leg, members: set<Leg>, pickUp: bool): Event
  {
    if pickUp then PickUpEvent(user, members) else DropOffEvent(user, members)
  }

  /** The events of a chain of passenger sets. */
  function EventsOf(user: Leg, chain: seq<set<Leg>>, pickUp: bool): set<Event>
  {
    set s | s in chain :: MakeEvent(user, s, pickUp)
  }

  /** The events of a chain with one more set in front. */
  lemma EventsOfCons(user: Leg, s: set<Leg>, tail: seq<set<Leg>>, pickUp: bool)
    ensures EventsOf(user, [s] + tail, pickUp) == {MakeEvent(user, s, pickUp)} + EventsOf(user, tail, pickUp)
  {
    assert forall t :: t in [s] + tail <==> t == s || t in tail;
  }

  /** The chain from a set that can grow: the grown set, then the chain from it. */
  lemma PermChainStep(cap: int, isFeasible: (Leg, set<Leg>, bool) -> bool, user: Leg,
                      cands: seq<Leg>, curr: set<Leg>, index: nat, pickUp: bool)
    requires PermChain(cap, isFeasible, user, cands, curr, index, pickUp) != []
    ensures |curr| < cap
    ensures var k := NextFree(cands, IdsOf(curr), index);
            k < |cands| && isFeasible(user, curr + {cands[k]}, pickUp) &&
            PermChain(cap, isFeasible, user, cands, curr, index, pickUp) ==
              [curr + {cands[k]}] + PermChain(cap, isFeasible, user, cands, curr + {cands[k]}, k + 1, pickUp)
  {
  }

  /** The events get_permutations returns, collected along the chain. */
  function PermEvents(cap: int, isFeasible: (Leg, set<Leg>, bool) -> bool, user: Leg, cands: seq<Leg>,
                      curr: set<Leg>, index: nat, pickUp: bool): set<Event>
    decreases |cands| - index
  {
    if |curr| < cap then
      var k := NextFree(cands, IdsOf(curr), index);
      if k < |cands| && isFeasible(user, curr + {cands[k]}, pickUp) then
        {MakeEvent(user, curr + {cands[k]}, pickUp)} +
        PermEvents(cap, isFeasible, user, cands, curr + {cands[k]}, k + 1, pickUp)
      else {}
    else {}
  }

  /** A set that can grow by the free candidate at k, feasibly, makes the first event. */
  lemma PermEventsGrows(cap: int, isFeasible: (Leg, set<Leg>, bool) -> bool, user: Leg,
                        cands: seq<Leg>, curr: set<Leg>, index: nat, pickUp: bool, k: nat)
    requires |curr| < cap && k == NextFree(cands, IdsOf(curr), index)
    requires k < |cands| && isFeasible(user, curr + {cands[k]}, pickUp)
    ensures PermEvents(cap, isFeasible, user, cands, curr, index, pickUp) ==
            {MakeEvent(user, curr + {cands[k]}, pickUp)} +
            PermEvents(cap, isFeasible, user, cands, curr + {cands[k]}, k + 1, pickUp)
  {
  }

  /** The collected events are exactly the events of the chain's sets. */
  lemma {:induction false} PermEventsOfChain(cap: int, isFeasible: (Leg, set<Leg>, bool) -> bool, user: Leg,
                                             cands: seq<Leg>, curr: set<Leg>, index: nat, pickUp: bool)
    ensures PermEvents(cap, isFeasible, user, cands, curr, index, pickUp) ==
            EventsOf(user, PermChain(cap, isFeasible, user, cands, curr, index, pickUp), pickUp)
    decreases |cands| - index
  {
    if |curr| < cap {
      var k := NextFree(cands, IdsOf(curr), index);
      if k < |cands| && isFeasible(user, curr + {cands[k]}, pickUp) {
        var next := curr + {cands[k]};
        PermEventsOfChain(cap, isFeasible, user, cands, next, k + 1, pickUp);
        EventsOfCons(user, next, PermChain(cap, isFeasible, user, cands, next, k + 1, pickUp), pickUp);
      }
    }
  }

  /** The while loop of get_permutations: skip the candidates whose parent id is taken. */
  method SkipTaken(cands: seq<Leg>, ids: set<int>, index: nat) returns (i: nat)
    ensures i == NextFree(cands, ids, index)
  {
    i := index;
    while i < |cands| && cands[i].id in ids
      invariant index <= i
      invariant NextFree(cands, ids, i) == NextFree(cands, ids, index)
      decreases |cands| - i
    {
      i := i + 1;
    }
  }

  /**
   * get_permutations with the line's maximum capacity already looked up and Helper.is_feasible
   * given as a parameter (it is not part of this model).
   */
  method PermutationsFrom(cap: int, isFeasible: (Leg, set<Leg>, bool) -> bool, user: Leg, cands: seq<Leg>,
                          curr: set<Leg>, index: nat, pickUp: bool) returns (events: set<Event>)
    ensures events == PermEvents(cap, isFeasible, user, cands, curr, index, pickUp)
    decreases |cands| - index
  {
    if |curr| < cap {
      var i := SkipTaken(cands, IdsOf(curr), index);
      if i < |cands| && isFeasible(user, curr + {cands[i]}, pickUp) {
        var next := curr + {cands[i]};
        var rest := PermutationsFrom(cap, isFeasible, user, cands, next, i + 1, pickUp);
        events := {MakeEvent(user, next, pickUp)} + rest;
        PermEventsGrows(cap, isFeasible, user, cands, curr, index, pickUp, i);
      } else {
        events := {};
      }
    } else {
      events := {};
    }
  }

  /** get_permutations: the line's maximum capacity is line_max[user.line]; a line without buses raises KeyError. */
  method GetPermutations(lineMax: map<Line, int>, isFeasible: (Leg, set<Leg>, bool) -> bool, user: Leg,
                         cands: seq<Leg>, curr: set<Leg>, index: nat, pickUp: bool) returns (r: Result<set<Event>>)
    ensures r.Failure? <==> user.line !in lineMax
    ensures r.Success? ==>
              r.value == EventsOf(user, PermChain(lineMax[user.line], isFeasible, user, cands, curr, index, pickUp), pickUp)
  {
    if user.line !in lineMax {
      return Failure("KeyError: no bus on the leg's line");
    }
    var events := PermutationsFrom(lineMax[user.line], isFeasible, user, cands, curr, index, pickUp);
    PermEventsOfChain(lineMax[user.line], isFeasible, user, cands, curr, index, pickUp);
    r := Success(events);
  }

  /**
   * The chain is nested and bounded: the i-th set is the current set grown by exactly i + 1
   * legs, never above the capacity, and each set contains the one before it.
   */
  lemma {:induction false} PermChainNested(cap: int, isFeasible: (Leg, set<Leg>, bool) -> bool, user: Leg,
                                          cands: seq<Leg>, curr: set<Leg>, index: nat, pickUp: bool)
    ensures var chain := PermChain(cap, isFeasible, user, cands, curr, index, pickUp);
            forall i :: 0 <= i < |chain| ==>
              |chain[i]| == |curr| + i + 1 && |chain[i]| <= cap && curr < chain[i] &&
              (i + 1 < |chain| ==> chain[i] < chain[i + 1])
    decreases |cands| - index
  {
    var chain := PermChain(cap, isFeasible, user, cands, curr, index, pickUp);
    if chain != [] {
      PermChainStep(cap, isFeasible, user, cands, curr, index, pickUp);
      var k := NextFree(cands, IdsOf(curr), index);
      var next := curr + {cands[k]};
      assert cands[k] !in curr by {
        assert cands[k].id !in IdsOf(curr);
      }
      assert |next| == |curr| + 1;
      PermChainNested(cap, isFeasible, user, cands, next, k + 1, pickUp);
      var tail := PermChain(cap, isFeasible, user, cands, next, k + 1, pickUp);
      assert chain == [next] + tail;
      forall i | 0 <= i < |chain|
        ensures |chain[i]| == |curr| + i + 1 && |chain[i]| <= cap && curr < chain[i]
        ensures i + 1 < |chain| ==> chain[i] < chain[i + 1]
      {
        if i > 0 {
          assert chain[i] == tail[i - 1];
        }
        if i + 1 < |chain| {
          assert chain[i + 1] == tail[i];
        }
      }
    }
  }

  /** Every set of the chain passed the feasibility check. */
  lemma {:induction false} PermChainFeasible(cap: int, isFeasible: (Leg, set<Leg>, bool) -> bool, user: Leg,
                                            cands: seq<Leg>, curr: set<Leg>, index: nat, pickUp: bool)
    ensures AllFeasible(isFeasible, user, PermChain(cap, isFeasible, user, cands, curr, index, pickUp), pickUp)
    decreases |cands| - index
  {
    var k := NextFree(cands, IdsOf(curr), index);
    if |curr| < cap && k < |cands| && isFeasible(user, curr + {cands[k]}, pickUp) {
      var next := curr + {cands[k]};
      PermChainFeasible(cap, isFeasible, user, cands, next, k + 1, pickUp);
      FeasibleCons(isFeasible, user, pickUp, PermChain(cap, isFeasible, user, cands, curr, index, pickUp),
                   next, PermChain(cap, isFeasible, user, cands, next, k + 1, pickUp));
    }
  }

  /** Every set of a sequence passes the feasibility check. */
  predicate AllFeasible(isFeasible: (Leg, set<Leg>, bool) -> bool, user: Leg, chain: seq<set<Leg>>, pickUp: bool)
  {
    forall i :: 0 <= i < |chain| ==> isFeasible(user, chain[i], pickUp)
  }

  /** A feasible set in front of feasible sets. */
  lemma FeasibleCons(isFeasible: (Leg, set<Leg>, bool) -> bool, user: Leg, pickUp: bool,
                     chain: seq<set<Leg>>, next: set<Leg>, tail: seq<set<Leg>>)
    requires chain == [next] + tail && isFeasible(user, next, pickUp) && AllFeasible(isFeasible, user, tail, pickUp)
    ensures AllFeasible(isFeasible, user, chain, pickUp)
  {
    forall i | 0 <= i < |chain|
      ensures isFeasible(user, chain[i], pickUp)
    {
      if i > 0 {
        assert chain[i] == tail[i - 1];
      }
    }
  }

  /** Adding a leg whose parent id is not yet taken keeps the parent ids distinct. */
  lemma AddNewId(curr: set<Leg>, c: Leg)
    requires DistinctIds(curr) && c.id !in IdsOf(curr)
    ensures DistinctIds(curr + {c})
  {
    forall b | b in curr
      ensures b.id != c.id
    {
      assert b.id in IdsOf(curr);
    }
  }

  /** Only one leg per parent: from a set with distinct parent ids, every set of the chain has distinct parent ids. */
  lemma {:induction false} PermChainDistinctIds(cap: int, isFeasible: (Leg, set<Leg>, bool) -> bool, user: Leg,
                                               cands: seq<Leg>, curr: set<Leg>, index: nat, pickUp: bool)
    requires DistinctIds(curr)
    ensures AllDistinctIds(PermChain(cap, isFeasible, user, cands, curr, index, pickUp))
    decreases |cands| - index
  {
    var k := NextFree(cands, IdsOf(curr), index);
    if |curr| < cap && k < |cands| && isFeasible(user, curr + {cands[k]}, pickUp) {
      var next := curr + {cands[k]};
      AddNewId(curr, cands[k]);
      PermChainDistinctIds(cap, isFeasible, user, cands, next, k + 1, pickUp);
      DistinctIdsCons(PermChain(cap, isFeasible, user, cands, curr, index, pickUp),
                      next, PermChain(cap, isFeasible, user, cands, next, k + 1, pickUp));
    }
  }

  /** Every set of a sequence holds at most one leg per parent. */
  predicate AllDistinctIds(chain: seq<set<Leg>>)
  {
    forall i :: 0 <= i < |chain| ==> DistinctIds(chain[i])
  }

  /** A set with distinct parent ids in front of sets that each have them. */
  lemma DistinctIdsCons(chain: seq<set<Leg>>, next: set<Leg>, tail: seq<set<Leg>>)
    requires chain == [next] + tail && DistinctIds(next) && AllDistinctIds(tail)
    ensures AllDistinctIds(chain)
  {
    forall i | 0 <= i < |chain|
      ensures DistinctIds(chain[i])
    {
      if i > 0 {
        assert chain[i] == tail[i - 1];
      }
    }
  }

  /** What the chain adds to the current set comes from the candidates at or after the start index. */
  lemma {:induction false} PermChainFrom(cap: int, isFeasible: (Leg, set<Leg>, bool) -> bool, user: Leg,
                                        cands: seq<Leg>, curr: set<Leg>, index: nat, pickUp: bool)
    requires index <= |cands|
    ensures AddedFrom(PermChain(cap, isFeasible, user, cands, curr, index, pickUp), curr, cands[index..])
    decreases |cands| - index
  {
    var k := NextFree(cands, IdsOf(curr), index);
    if |curr| < cap && k < |cands| && isFeasible(user, curr + {cands[k]}, pickUp) {
      var next := curr + {cands[k]};
      PermChainFrom(cap, isFeasible, user, cands, next, k + 1, pickUp);
      AddedFromCons(PermChain(cap, isFeasible, user, cands, curr, index, pickUp), curr, next,
                    PermChain(cap, isFeasible, user, cands, next, k + 1, pickUp), cands, index, k);
    }
  }

  /** Whatever a set of the chain holds beyond `base` is one of `from`. */
  predicate AddedFrom(chain: seq<set<Leg>>, base: set<Leg>, from: seq<Leg>)
  {
    forall i, y :: 0 <= i < |chain| && y in chain[i] && y !in base ==> y in from
  }

  /** Growing the base by the candidate at k, from a tail whose additions come after k. */
  lemma AddedFromCons(chain: seq<set<Leg>>, curr: set<Leg>, next: set<Leg>, tail: seq<set<Leg>>,
                      cands: seq<Leg>, index: nat, k: nat)
    requires index <= k < |cands| && next == curr + {cands[k]} && chain == [next] + tail
    requires AddedFrom(tail, next, cands[k + 1..])
    ensures AddedFrom(chain, curr, cands[index..])
  {
    forall i, y | 0 <= i < |chain| && y in chain[i] && y !in curr
      ensures y in cands[index..]
    {
      if y == cands[k] {
        assert cands[index..][k - index] == y;
      } else {
        assert chain[i] == tail[i - 1];
        assert y in cands[k + 1..];
        var j :| 0 <= j < |cands[k + 1..]| && cands[k + 1..][j] == y;
        assert cands[index..][j + k + 1 - index] == y;
      }
    }
  }
}
