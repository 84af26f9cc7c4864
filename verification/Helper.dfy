/**
 * Routing helpers of src/utils/helper/Helper.py: the time between two stops of a line, the
 * transfer-penalised fastest-route search, the `datetime.time` conversions, and the
 * depth-first enumeration of line-changing itineraries ("split requests").
 */
module Helper {
  import opened Wrappers
  import opened Timer
  import opened Network
  import opened PriorityQueue
  import opened LineGraph

  // ----- calc_time_multi -----

  /** list.index: the first position of v, or None where Python raises ValueError. */
  function IndexOf(stops: seq<Stop>, v: Stop): (r: Option<nat>)
    ensures r.None? <==> v !in stops
    ensures r.Some? ==> r.value < |stops| && stops[r.value] == v && v !in stops[..r.value]
  {
    if stops == [] then None
    else if stops[0] == v then Some(0)
    else match IndexOf(stops[1..], v)
      case None => None
      case Some(i) =>
        assert stops[1..][..i] == stops[1..i + 1];
        Some(i + 1)
  }

  /** The travel times of the segments between positions lo and hi of a stop sequence, summed. */
  function SegmentSum(stops: seq<Stop>, lo: nat, hi: nat, dur: (Stop, Stop) -> real): real
    requires lo <= hi < |stops|
    decreases hi - lo
  {
    if lo == hi then 0.0 else SegmentSum(stops, lo, hi - 1, dur) + dur(stops[hi - 1], stops[hi])
  }

  /** Segment sums add up over adjacent ranges. */
  lemma {:induction false} SegmentSumSplit(stops: seq<Stop>, lo: nat, mid: nat, hi: nat, dur: (Stop, Stop) -> real)
    requires lo <= mid <= hi < |stops|
    ensures SegmentSum(stops, lo, hi, dur) == SegmentSum(stops, lo, mid, dur) + SegmentSum(stops, mid, hi, dur)
    decreases hi - mid
  {
    if mid < hi {
      SegmentSumSplit(stops, lo, mid, hi - 1, dur);
    }
  }

  /** With nonnegative segment times the sum is nonnegative and grows with the range. */
  lemma {:induction false} SegmentSumNonNegative(stops: seq<Stop>, lo: nat, hi: nat, dur: (Stop, Stop) -> real)
    requires lo <= hi < |stops|
    requires forall a, b :: dur(a, b) >= 0.0
    ensures SegmentSum(stops, lo, hi, dur) >= 0.0
    decreases hi - lo
  {
    if lo < hi {
      SegmentSumNonNegative(stops, lo, hi - 1, dur);
    }
  }

  /** What calc_time_multi computes: the segment times between the two stops' first positions. */
  function TimeBetween(line: Line, v1: Stop, v2: Stop, dur: (Stop, Stop) -> real): (r: Option<real>)
    ensures r.None? <==> v1 !in line.stops || v2 !in line.stops
  {
    match (IndexOf(line.stops, v1), IndexOf(line.stops, v2))
    case (Some(i), Some(j)) =>
      Some(if j < i then SegmentSum(line.stops, j, i, dur) else SegmentSum(line.stops, i, j, dur))
    case _ => None
  }

  /** calc_time_multi is symmetric in its two stops and is 0 from a stop of the line to itself. */
  lemma TimeBetweenSymmetric(line: Line, v1: Stop, v2: Stop, dur: (Stop, Stop) -> real)
    ensures TimeBetween(line, v1, v2, dur) == TimeBetween(line, v2, v1, dur)
    ensures v1 in line.stops ==> TimeBetween(line, v1, v1, dur) == Some(0.0)
  {
    var i1, i2 := IndexOf(line.stops, v1), IndexOf(line.stops, v2);
    if i1.Some? && i2.Some? && i1.value == i2.value {
      assert TimeBetween(line, v1, v2, dur) == Some(SegmentSum(line.stops, i1.value, i1.value, dur));
    }
  }

  /** Going past an intermediate stop: the times to it and from it add up. */
  lemma {:induction false} TimeBetweenAdds(line: Line, a: Stop, b: Stop, c: Stop, dur: (Stop, Stop) -> real)
    requires a in line.stops && b in line.stops && c in line.stops
    requires IndexOf(line.stops, a).value <= IndexOf(line.stops, b).value <= IndexOf(line.stops, c).value
    ensures TimeBetween(line, a, c, dur).value == TimeBetween(line, a, b, dur).value + TimeBetween(line, b, c, dur).value
  {
    SegmentSumSplit(line.stops, IndexOf(line.stops, a).value, IndexOf(line.stops, b).value,
                    IndexOf(line.stops, c).value, dur);
  }

  /** calc_time_multi: looks both stops up (None for a stop off the line) and sums the segments. */
  method CalcTimeMulti(v1: Stop, v2: Stop, line: Line, dur: (Stop, Stop) -> real) returns (r: Option<real>)
    ensures r == TimeBetween(line, v1, v2, dur)
  {
    var i1 := IndexOf(line.stops, v1);
    var i2 := IndexOf(line.stops, v2);
    if i1.None? || i2.None? {
      return None;
    }
    var indexV1, indexV2 := i1.value, i2.value;
    if indexV2 < indexV1 {
      indexV1, indexV2 := indexV2, indexV1;
    }
    var duration := 0.0;
    for i := indexV1 to indexV2
      invariant duration == SegmentSum(line.stops, indexV1, i, dur)
    {
      duration := duration + dur(line.stops[i], line.stops[i + 1]);
    }
    r := Some(duration);
  }

  // ----- datetime twins of the clock conversions -----

  /** A value datetime.time accepts. */
  predicate IsClock(t: TimeImpl)
  {
    0 <= t.hour <= 23 && 0 <= t.minute <= 59 && 0 <= t.second <= 59
  }

  /**
   * convert_2_time of Helper.py: the same rounding as Timer's, but the result is a
   * datetime.time, whose constructor raises for an hour outside 0..23.
   */
  function ConvertToClock(durationMin: real): (r: Result<TimeImpl>)
    ensures r.Success? <==> 0 <= RoundHalfEven(durationMin) < 1440
    ensures r.Success? ==> (IsClock(r.value) && r.value.second == 0 &&
                            60 * r.value.hour + r.value.minute == RoundHalfEven(durationMin))
  {
    var t := ConvertToTime(durationMin);
    if 0 <= t.hour <= 23 then Success(TimeImpl(t.hour, t.minute, 0))
    else Failure("ValueError: hour must be in 0..23")
  }

  /** For a whole number of minutes within a day, convert_2_minutes undoes convert_2_time. */
  lemma ClockRoundTrip(n: int)
    requires 0 <= n < 1440
    ensures ConvertToClock(n as real) == Success(TimeImpl(n / 60, n % 60, 0))
    ensures GetInMinutes(ConvertToClock(n as real).value) == n as real
  {
    WholeMinutesRoundTrip(n);
    RoundWhole(n);
  }

  /** The seconds total that add_times and sub_times divide by 60 is the minute total. */
  lemma SecondsAreMinutes(t1: TimeImpl, t2: TimeImpl)
    ensures ((3600 * (t1.hour + t2.hour) + 60 * (t1.minute + t2.minute) + t1.second + t2.second) as real) / 60.0
            == GetInMinutes(t1) + GetInMinutes(t2)
    ensures ((3600 * (t1.hour - t2.hour) + 60 * (t1.minute - t2.minute) + t1.second - t2.second) as real) / 60.0
            == GetInMinutes(t1) - GetInMinutes(t2)
  {
  }

  /** add_times: the clock of the rounded minute sum, an error past midnight. */
  function AddTimes(t1: TimeImpl, t2: TimeImpl): (r: Result<TimeImpl>)
    ensures r.Success? <==> 0 <= RoundHalfEven(GetInMinutes(t1) + GetInMinutes(t2)) < 1440
    ensures r.Success? ==> 60 * r.value.hour + r.value.minute == RoundHalfEven(GetInMinutes(t1) + GetInMinutes(t2))
    ensures r.Success? ==> IsClock(r.value) && r.value.second == 0
  {
    SecondsAreMinutes(t1, t2);
    var sumSec := 3600 * (t1.hour + t2.hour) + 60 * (t1.minute + t2.minute) + t1.second + t2.second;
    ConvertToClock(sumSec as real / 60.0)
  }

  /** sub_times: the clock of the rounded minute difference, an error below zero. */
  function SubTimes(t1: TimeImpl, t2: TimeImpl): (r: Result<TimeImpl>)
    ensures r.Success? <==> 0 <= RoundHalfEven(GetInMinutes(t1) - GetInMinutes(t2)) < 1440
    ensures r.Success? ==> 60 * r.value.hour + r.value.minute == RoundHalfEven(GetInMinutes(t1) - GetInMinutes(t2))
  {
    SecondsAreMinutes(t1, t2);
    var sumSec := 3600 * (t1.hour - t2.hour) + 60 * (t1.minute - t2.minute) + t1.second - t2.second;
    ConvertToClock(sumSec as real / 60.0)
  }

  /** Subtracting a clock more than half a minute later is an error; a clock minus itself is midnight. */
  lemma SubTimesOfLaterFails(t1: TimeImpl, t2: TimeImpl)
    requires IsClock(t1) && IsClock(t2)
    ensures GetInMinutes(t1) + 0.5 < GetInMinutes(t2) ==> SubTimes(t1, t2).Failure?
    ensures SubTimes(t1, t1) == Success(TimeImpl(0, 0, 0))
  {
    RoundWhole(0);
    assert GetInMinutes(t1) - GetInMinutes(t1) == 0.0;
  }

  /** A clock plus midnight is itself, rounded to the minute. */
  lemma AddMidnight(t: TimeImpl)
    requires IsClock(t) && t.second == 0
    ensures AddTimes(t, TimeImpl(0, 0, 0)) == Success(t)
  {
    var m := 60 * t.hour + t.minute;
    var z := TimeImpl(0, 0, 0);
    assert GetInMinutes(t) + GetInMinutes(z) == m as real;
    RoundWhole(m);
    var r := AddTimes(t, z);
    assert r.Success?;
    HourMinuteUnique(r.value.hour, r.value.minute, t.hour, t.minute);
  }

  /** A minute total fixes the hour and the minute below sixty. */
  lemma HourMinuteUnique(h1: int, m1: int, h2: int, m2: int)
    requires 0 <= m1 < 60 && 0 <= m2 < 60 && 60 * h1 + m1 == 60 * h2 + m2
    ensures h1 == h2 && m1 == m2
  {
  }

  // ----- calc_fastest -----

  /** An entry of pred_dict: the lines the rider may be on at a stop, and the transfers so far. */
  datatype Label = Label(lines: set<Line>, transfers: int)

  /** The candidate a relaxation proposes for the neighbour: its priority and label. */
  datatype Relaxed = Relaxed(alter: Priority, carried: Label)

  /**
   * The relaxation of an edge out of a stop settled at distV with label lv: staying on a
   * shared line costs the edge's duration; otherwise a transfer adds TRANSFER_MINUTES and one
   * transfer, and the rider may then be on any line of the edge.
   */
  function Relax(distV: Priority, lv: Label, e: LineEdge, duration: real, transferMinutes: real): (r: Relaxed)
    ensures r.carried.lines <= e.lines
    ensures r.carried.transfers == lv.transfers || r.carried.transfers == lv.transfers + 1
    ensures r.carried.transfers == lv.transfers + 1 <==> e.lines * lv.lines == {}
    ensures r.carried.transfers == lv.transfers ==> r.carried.lines == e.lines * lv.lines != {}
    ensures r.carried.transfers == lv.transfers ==> r.alter == Plus(distV, duration)
    ensures r.carried.transfers != lv.transfers ==> r.alter == Plus(Plus(distV, duration), transferMinutes)
    ensures r.alter.Infinity? <==> distV.Infinity?
    ensures duration >= 0.0 && transferMinutes >= 0.0 ==> Below(distV, r.alter)
  {
    var intersect := e.lines * lv.lines;
    if intersect == {} then
      Relaxed(Plus(Plus(distV, duration), transferMinutes), Label(e.lines, lv.transfers + 1))
    else
      Relaxed(Plus(distV, duration), Label(intersect, lv.transfers))
  }

  /** The replacement test: strictly shorter, or as short with fewer transfers. */
  predicate Improves(alter: Priority, transfers: int, distU: Priority, lu: Label)
    ensures Improves(alter, transfers, distU, lu) ==> Below(alter, distU)
  {
    StrictlyBelow(alter, distU) || (alter == distU && transfers < lu.transfers)
  }

  /** A finite label has at least the initial transfer and at least the initial penalty. */
  predicate LabelOk(p: Priority, l: Label, transferMinutes: real)
  {
    p.Finite? ==> p.value >= transferMinutes && l.transfers >= 1
  }

  /** The priority a stop has now: queued or settled. */
  function PriorityNow(nd: map<Stop, Priority>, fv: map<Stop, Priority>, n: Stop): Priority
    requires n in nd || n in fv
  {
    if n in nd then nd[n] else fv[n]
  }

  /** Every stop, queued or settled, has a label that is LabelOk with its priority. */
  ghost predicate LabelsOk(nd: map<Stop, Priority>, fv: map<Stop, Priority>, pred: map<Stop, Label>, transferMinutes: real)
  {
    forall n :: (n in nd || n in fv) ==> n in pred && LabelOk(PriorityNow(nd, fv, n), pred[n], transferMinutes)
  }

  /** No queued priority is below d. */
  ghost predicate AllAtLeast(nd: map<Stop, Priority>, d: Priority)
  {
    forall q :: q in nd ==> Below(d, nd[q])
  }

  /** No queued priority has risen since nd0. */
  ghost predicate NoneRaised(nd: map<Stop, Priority>, nd0: map<Stop, Priority>)
  {
    forall n :: n in nd ==> n in nd0 && Below(nd[n], nd0[n])
  }

  /** A relaxation out of a well-labelled stop proposes a well-labelled candidate. */
  lemma RelaxKeepsLabelOk(distV: Priority, lv: Label, e: LineEdge, duration: real, transferMinutes: real)
    requires LabelOk(distV, lv, transferMinutes) && duration >= 0.0 && transferMinutes >= 0.0
    ensures LabelOk(Relax(distV, lv, e, duration, transferMinutes).alter,
                    Relax(distV, lv, e, duration, transferMinutes).carried, transferMinutes)
  {
  }

  /** Accepting an improving candidate for a queued stop keeps the search invariants. */
  lemma AcceptKeepsInvariants(nd: map<Stop, Priority>, fv: map<Stop, Priority>, pred: map<Stop, Label>,
                              nd0: map<Stop, Priority>, u: Stop, alter: Priority, carried: Label,
                              distV: Priority, transferMinutes: real)
    requires LabelsOk(nd, fv, pred, transferMinutes) && AllAtLeast(nd, distV) && NoneRaised(nd, nd0)
    requires u in nd && Below(alter, nd[u]) && Below(distV, alter) && LabelOk(alter, carried, transferMinutes)
    ensures LabelsOk(nd[u := alter], fv, pred[u := carried], transferMinutes)
    ensures AllAtLeast(nd[u := alter], distV)
    ensures NoneRaised(nd[u := alter], nd0)
  {
    BelowIsTotalOrder(alter, nd[u], nd0[u]);
  }

  /**
   * The inner loop of calc_fastest: relaxes every edge at the just-settled stop v. Only
   * queued neighbours are touched, and only to lower (or equal, with fewer transfers) priority.
   */
  method RelaxNeighbours(queue: PriorityQueue<Stop>, adjacent: seq<LineEdge>, v: Stop, distV: Priority,
                         pred: map<Stop, Label>, duration: LineEdge -> real, transferMinutes: real)
    returns (newPred: map<Stop, Label>)
    requires queue.Valid() && pred.Keys == queue.nodes
    requires forall e :: e in adjacent ==> ContainsStop(e, v) && duration(e) >= 0.0
    requires transferMinutes >= 0.0
    requires LabelsOk(queue.nodeDict, queue.finalVals, pred, transferMinutes)
    requires AllAtLeast(queue.nodeDict, distV)
    requires v in queue.finalVals && LabelOk(distV, pred[v], transferMinutes)
    modifies queue
    ensures queue.Valid() && queue.nodes == old(queue.nodes)
    ensures queue.finalVals == old(queue.finalVals) && queue.nodeDict.Keys == old(queue.nodeDict.Keys)
    ensures newPred.Keys == pred.Keys
    ensures forall n :: n in queue.finalVals ==> newPred[n] == pred[n]
    ensures NoneRaised(queue.nodeDict, old(queue.nodeDict))
    ensures LabelsOk(queue.nodeDict, queue.finalVals, newPred, transferMinutes)
    ensures AllAtLeast(queue.nodeDict, distV)
  {
    newPred := pred;
    ghost var nd0 := queue.nodeDict;
    for k := 0 to |adjacent|
      invariant queue.Valid() && queue.nodes == old(queue.nodes)
      invariant queue.finalVals == old(queue.finalVals) && queue.nodeDict.Keys == nd0.Keys
      invariant newPred.Keys == pred.Keys
      invariant forall n :: n in queue.finalVals ==> newPred[n] == pred[n]
      invariant NoneRaised(queue.nodeDict, nd0)
      invariant LabelsOk(queue.nodeDict, queue.finalVals, newPred, transferMinutes)
      invariant AllAtLeast(queue.nodeDict, distV)
    {
      assert adjacent[k] in adjacent;
      newPred := RelaxEdge(queue, adjacent[k], v, distV, newPred, duration(adjacent[k]), transferMinutes, nd0);
    }
  }

  /** One pass of the inner loop: relaxes the edge adjEdge at the just-settled stop v. */
  method RelaxEdge(queue: PriorityQueue<Stop>, adjEdge: LineEdge, v: Stop, distV: Priority,
                   pred: map<Stop, Label>, dur: real, transferMinutes: real, ghost nd0: map<Stop, Priority>)
    returns (newPred: map<Stop, Label>)
    requires queue.Valid() && pred.Keys == queue.nodes
    requires ContainsStop(adjEdge, v) && dur >= 0.0 && transferMinutes >= 0.0
    requires LabelsOk(queue.nodeDict, queue.finalVals, pred, transferMinutes)
    requires AllAtLeast(queue.nodeDict, distV) && NoneRaised(queue.nodeDict, nd0)
    requires v in queue.finalVals && LabelOk(distV, pred[v], transferMinutes)
    modifies queue
    ensures queue.Valid() && queue.nodes == old(queue.nodes)
    ensures queue.finalVals == old(queue.finalVals) && queue.nodeDict.Keys == old(queue.nodeDict.Keys)
    ensures newPred.Keys == pred.Keys
    ensures forall n :: n in queue.finalVals ==> newPred[n] == pred[n]
    ensures NoneRaised(queue.nodeDict, nd0)
    ensures LabelsOk(queue.nodeDict, queue.finalVals, newPred, transferMinutes)
    ensures AllAtLeast(queue.nodeDict, distV)
  {
    newPred := pred;
    var u := GetNeighbour(adjEdge, v).value;
    var distU := queue.GetPriority(u);
    if distU.Some? {
      var lv := pred[v];
      var relaxed := Relax(distV, lv, adjEdge, dur, transferMinutes);
      if Improves(relaxed.alter, relaxed.carried.transfers, distU.value, pred[u]) {
        RelaxKeepsLabelOk(distV, lv, adjEdge, dur, transferMinutes);
        AcceptKeepsInvariants(queue.nodeDict, queue.finalVals, pred, nd0, u, relaxed.alter,
                              relaxed.carried, distV, transferMinutes);
        queue.Replace(u, relaxed.alter);
        newPred := pred[u := relaxed.carried];
      }
    }
  }

  /**
   * The state calc_fastest keeps between pops: labels fit priorities, settled priorities are
   * no larger than queued ones, before the first pop only the pick-up is finite, and the
   * pick-up keeps its seed.
   */
  ghost predicate Settling(nd: map<Stop, Priority>, fv: map<Stop, Priority>, pred: map<Stop, Label>,
                           pickUp: Stop, transferMinutes: real)
  {
    && LabelsOk(nd, fv, pred, transferMinutes)
    && (forall f, q :: f in fv && q in nd ==> Below(fv[f], nd[q]))
    && (fv == map[] ==> pickUp in nd && nd[pickUp] == Finite(transferMinutes) &&
                        (forall n :: n in nd && n != pickUp ==> nd[n] == Infinity))
    && pickUp in pred && pred[pickUp].transfers == 1
    && (pickUp in fv ==> fv[pickUp] == Finite(transferMinutes))
    && (fv != map[] ==> pickUp in fv)
  }

  /** Popping a minimal stop: the first pop is the pick-up, and everything settled is at most its value. */
  lemma PopStep(nd: map<Stop, Priority>, fv: map<Stop, Priority>, pred: map<Stop, Label>,
                pickUp: Stop, transferMinutes: real, v: Stop, nd': map<Stop, Priority>, fv': map<Stop, Priority>)
    requires Settling(nd, fv, pred, pickUp, transferMinutes) && nd.Keys !! fv.Keys
    requires v in nd && forall n :: n in nd ==> Below(nd[v], nd[n])
    requires nd' == nd - {v} && fv' == fv[v := nd[v]]
    ensures fv == map[] ==> v == pickUp
    ensures forall f :: f in fv' ==> Below(fv'[f], nd[v])
    ensures LabelsOk(nd', fv', pred, transferMinutes)
    ensures AllAtLeast(nd', nd[v])
    ensures LabelOk(nd[v], pred[v], transferMinutes)
    ensures pickUp in fv' && fv'[pickUp] == Finite(transferMinutes)
  {
    forall n | n in nd' || n in fv'
      ensures n in pred && LabelOk(PriorityNow(nd', fv', n), pred[n], transferMinutes)
    {
      assert PriorityNow(nd', fv', n) == PriorityNow(nd, fv, n);
    }
  }

  /** After relaxing, the state between pops holds again. */
  lemma RelaxStep(nd: map<Stop, Priority>, fv: map<Stop, Priority>, pred: map<Stop, Label>,
                  pickUp: Stop, transferMinutes: real, distV: Priority)
    requires LabelsOk(nd, fv, pred, transferMinutes) && AllAtLeast(nd, distV)
    requires forall f :: f in fv ==> Below(fv[f], distV)
    requires pickUp in fv && fv[pickUp] == Finite(transferMinutes)
    requires pickUp in pred && pred[pickUp].transfers == 1
    ensures Settling(nd, fv, pred, pickUp, transferMinutes)
  {
    forall f, q | f in fv && q in nd
      ensures Below(fv[f], nd[q])
    {
      BelowIsTotalOrder(fv[f], distV, nd[q]);
    }
  }

  /**
   * The set-up of calc_fastest: every node labelled with no lines and no transfers and queued
   * at infinity, then the pick-up labelled with its lines and one transfer and given priority
   * TRANSFER_MINUTES.
   */
  method StartSearch(nodes: set<Stop>, pickUp: Stop, pickLines: set<Line>, transferMinutes: real)
    returns (queue: PriorityQueue<Stop>, pred: map<Stop, Label>)
    requires pickUp in nodes && transferMinutes >= 0.0
    ensures fresh(queue) && queue.Valid() && queue.nodes == nodes && pred.Keys == nodes
    ensures queue.finalVals == map[] && queue.nodeDict.Keys == nodes
    ensures pred[pickUp] == Label(pickLines, 1)
    ensures queue.nodeDict == (map n | n in nodes :: Infinity)[pickUp := Finite(transferMinutes)]
    ensures Settling(queue.nodeDict, queue.finalVals, pred, pickUp, transferMinutes)
  {
    pred := map n | n in nodes :: Label({}, 0);
    pred := pred[pickUp := Label(pickLines, 1)];
    var order := IterationOrder(nodes);
    queue := new PriorityQueue<Stop>(order);
    InfinityMap(order, nodes);
    queue.Replace(pickUp, Finite(transferMinutes));
    StartSettling(nodes, pickUp, pickLines, transferMinutes, queue.nodeDict, pred);
  }

  /** The queue built from an order of the nodes holds every node at infinity. */
  lemma InfinityMap(order: seq<Stop>, nodes: set<Stop>)
    requires (set l | l in order) == nodes
    ensures (map n | n in order :: Infinity) == (map n | n in nodes :: Infinity)
  {
  }

  /** The set-up state is the state between pops with nothing settled yet. */
  lemma StartSettling(nodes: set<Stop>, pickUp: Stop, pickLines: set<Line>, transferMinutes: real,
                      nd: map<Stop, Priority>, pred: map<Stop, Label>)
    requires pickUp in nodes && transferMinutes >= 0.0
    requires nd == (map n | n in nodes :: Infinity)[pickUp := Finite(transferMinutes)]
    requires pred == (map n | n in nodes :: Label({}, 0))[pickUp := Label(pickLines, 1)]
    ensures Settling(nd, map[], pred, pickUp, transferMinutes)
  {
  }

  /**
   * The pop that opens a round of calc_fastest's loop: the stop popped is settled at a
   * priority no settled stop exceeds and no queued stop undercuts, with a fitting label.
   */
  method PopMinimal(queue: PriorityQueue<Stop>, pred: map<Stop, Label>, pickUp: Stop, transferMinutes: real)
    returns (v: Stop, distV: Priority)
    requires queue.Valid() && queue.nodeDict != map[]
    requires Settling(queue.nodeDict, queue.finalVals, pred, pickUp, transferMinutes)
    modifies queue
    ensures queue.Valid() && queue.nodes == old(queue.nodes) && v in queue.nodes
    ensures |queue.nodeDict| == |old(queue.nodeDict)| - 1
    ensures queue.finalVals == old(queue.finalVals)[v := distV]
    ensures old(queue.finalVals) == map[] ==> v == pickUp
    ensures forall f :: f in queue.finalVals ==> Below(queue.finalVals[f], distV)
    ensures LabelsOk(queue.nodeDict, queue.finalVals, pred, transferMinutes)
    ensures AllAtLeast(queue.nodeDict, distV)
    ensures v in queue.finalVals && LabelOk(distV, pred[v], transferMinutes)
    ensures pickUp in queue.finalVals && queue.finalVals[pickUp] == Finite(transferMinutes)
  {
    ghost var finalsBefore, queuedBefore := queue.finalVals, queue.nodeDict;
    v, distV := queue.Pop();
    PopStep(queuedBefore, finalsBefore, pred, pickUp, transferMinutes, v, queue.nodeDict, queue.finalVals);
  }

  /** One round of calc_fastest's loop: pop the minimal stop and relax the edges at it. */
  method SettleNext(queue: PriorityQueue<Stop>, graph: LineGraph, pred: map<Stop, Label>, pickUp: Stop,
                    duration: LineEdge -> real, transferMinutes: real)
    returns (v: Stop, distV: Priority, newPred: map<Stop, Label>)
    requires queue.Valid() && graph.Valid() && queue.nodes == graph.graphDict.Keys && pred.Keys == queue.nodes
    requires queue.nodeDict != map[] && transferMinutes >= 0.0
    requires forall e :: e in graph.edges ==> duration(e) >= 0.0
    requires Settling(queue.nodeDict, queue.finalVals, pred, pickUp, transferMinutes)
    modifies queue
    ensures queue.Valid() && queue.nodes == old(queue.nodes) && newPred.Keys == pred.Keys
    ensures |queue.nodeDict| == |old(queue.nodeDict)| - 1
    ensures queue.finalVals == old(queue.finalVals)[v := distV]
    ensures forall f :: f in queue.finalVals ==> Below(queue.finalVals[f], distV)
    ensures Settling(queue.nodeDict, queue.finalVals, newPred, pickUp, transferMinutes)
  {
    v, distV := PopMinimal(queue, pred, pickUp, transferMinutes);
    var adjacent := graph.EdgesOfNode(v);
    newPred := RelaxNeighbours(queue, adjacent, v, distV, pred, duration, transferMinutes);
    RelaxStep(queue.nodeDict, queue.finalVals, newPred, pickUp, transferMinutes, distV);
  }

  /** The body of calc_fastest's while loop: one round, then the two tests of the loop condition. */
  method SearchRound(queue: PriorityQueue<Stop>, graph: LineGraph, pred: map<Stop, Label>, pickUp: Stop, dropOff: Stop,
                     duration: LineEdge -> real, transferMinutes: real)
    returns (distV: Priority, newPred: map<Stop, Label>, empty: bool, pd: Option<Priority>)
    requires queue.Valid() && graph.Valid() && queue.nodes == graph.graphDict.Keys && pred.Keys == queue.nodes
    requires queue.nodeDict != map[] && transferMinutes >= 0.0 && dropOff in queue.nodeDict
    requires forall e :: e in graph.edges ==> duration(e) >= 0.0
    requires Settling(queue.nodeDict, queue.finalVals, pred, pickUp, transferMinutes)
    modifies queue
    ensures queue.Valid() && queue.nodes == old(queue.nodes) && newPred.Keys == pred.Keys
    ensures |queue.nodeDict| < |old(queue.nodeDict)|
    ensures empty <==> queue.nodeDict == map[]
    ensures pd.None? <==> dropOff in queue.finalVals
    ensures Settling(queue.nodeDict, queue.finalVals, newPred, pickUp, transferMinutes)
    ensures forall f :: f in queue.finalVals ==> Below(queue.finalVals[f], distV)
    ensures dropOff in queue.finalVals ==> queue.finalVals[dropOff] == distV
  {
    var v;
    v, distV, newPred := SettleNext(queue, graph, pred, pickUp, duration, transferMinutes);
    empty := queue.IsEmpty();
    pd := queue.GetPriority(dropOff);
  }

  /**
   * calc_fastest: label-setting search from the pick-up stop, seeded with TRANSFER_MINUTES,
   * one transfer and the lines at the pick-up, until the drop-off is settled. Fails where
   * Python raises KeyError: a pick-up or drop-off that is not a node of the graph. The result
   * is the drop-off's settled priority and transfer count; the ghost `settled` holds every
   * settled priority, none above the result.
   */
  method CalcFastest(pickUp: Stop, dropOff: Stop, graph: LineGraph, duration: LineEdge -> real,
                     transferMinutes: real)
    returns (r: Result<(Priority, int)>, ghost settled: map<Stop, Priority>)
    requires graph.Valid()
    requires transferMinutes >= 0.0
    requires forall e :: e in graph.edges ==> duration(e) >= 0.0
    ensures r.Failure? <==> pickUp !in graph.graphDict || dropOff !in graph.graphDict
    ensures r.Success? ==> dropOff in settled && r.value.0 == settled[dropOff]
    ensures r.Success? ==> forall n :: n in settled ==> Below(settled[n], r.value.0)
    ensures r.Success? ==> LabelOk(r.value.0, Label({}, r.value.1), transferMinutes)
    ensures r.Success? && pickUp == dropOff ==> r.value == (Finite(transferMinutes), 1)
  {
    settled := map[];
    if pickUp !in graph.graphDict || dropOff !in graph.graphDict {
      return Failure("KeyError"), settled;
    }
    var nodes := graph.NodeSet();
    var pickLines := UnionLines(graph.EdgesOfNode(pickUp));
    var queue, pred := StartSearch(nodes, pickUp, pickLines, transferMinutes);
    var empty := queue.IsEmpty();
    var pd := queue.GetPriority(dropOff);
    ghost var last := Infinity;
    while !empty && pd.Some?
      invariant queue.Valid() && queue.nodes == nodes && fresh(queue)
      invariant pred.Keys == nodes
      invariant empty <==> queue.nodeDict == map[]
      invariant pd.None? <==> dropOff in queue.finalVals
      invariant Settling(queue.nodeDict, queue.finalVals, pred, pickUp, transferMinutes)
      invariant forall f :: f in queue.finalVals ==> Below(queue.finalVals[f], last)
      invariant dropOff in queue.finalVals ==> queue.finalVals[dropOff] == last
      decreases |queue.nodeDict|
    {
      var distV;
      distV, pred, empty, pd := SearchRound(queue, graph, pred, pickUp, dropOff, duration, transferMinutes);
      last := distV;
    }
    settled := queue.finalVals;
    r := Success((queue.finalVals[dropOff], pred[dropOff].transfers));
  }

  // ----- rec_dfs -----

  /** A leg as this file builds it: the parent request's id, the two stops and the line used. */
  datatype SplitRequest = SplitRequest(id: int, pickUp: Stop, dropOff: Stop, line: Line)

  /**
   * A key of the split-request dictionary: an edge's stops, its duration and its
   * representative line (the element `next(iter(lines))` yields for its line set).
   */
  datatype KeyEdge = KeyEdge(v1: Stop, v2: Stop, line: Line, duration: real)

  /** A dictionary entry: the key and the leg stored under it. */
  datatype DfsEntry = DfsEntry(key: KeyEdge, leg: SplitRequest)

  /** The hop budget left, as a termination measure. */
  function HopsLeft(transfers: int, maxHop: int): nat
  {
    if transfers <= maxHop then maxHop - transfers + 1 else 0
  }

  /** The entries that may follow `last`: from its end stop, to an unvisited stop, on another line. */
  predicate Follows(x: DfsEntry, last: DfsEntry, visited: set<Stop>)
  {
    x.key.v1 == last.key.v2 && x.key.v2 !in visited && x.key.line != last.key.line
  }

  /** The successors list of rec_dfs, in dictionary order. */
  function Successors(d: seq<DfsEntry>, last: DfsEntry, visited: set<Stop>): (s: seq<DfsEntry>)
    ensures forall x :: x in s <==> x in d && Follows(x, last, visited)
  {
    if d == [] then []
    else (if Follows(d[0], last, visited) then [d[0]] else []) + Successors(d[1..], last, visited)
  }

  /** Each open list extended by one entry (the appends to curr_open). */
  function Extend(open: seq<seq<DfsEntry>>, e: DfsEntry): (r: seq<seq<DfsEntry>>)
    ensures |r| == |open| && forall i :: 0 <= i < |open| ==> r[i] == open[i] + [e]
  {
    seq(|open|, i requires 0 <= i < |open| => open[i] + [e])
  }

  /**
   * rec_dfs: prunes on the transfer counter and the minutes, appends the current entry to
   * every open list, stops at the target, and otherwise recurses into every successor with
   * one more transfer and the current start added to the visited stops. Itineraries are
   * lists of dictionary entries; their legs are the Python result.
   */
  function RecDfs(d: seq<DfsEntry>, last: DfsEntry, minutes: real, transfers: int, visited: set<Stop>,
                  open: seq<seq<DfsEntry>>, maxTime: real, maxHop: int, target: Stop,
                  transferMinutes: real): seq<seq<DfsEntry>>
    decreases HopsLeft(transfers, maxHop), 1, 0
  {
    if transfers > maxHop || minutes > maxTime then []
    else
      var extended := Extend(open, last);
      if last.key.v2 == target then extended
      else DfsAll(d, Successors(d, last, visited), minutes, transfers + 1, visited + {last.key.v1},
                  extended, maxTime, maxHop, target, transferMinutes)
  }

  /** The loop over successors: each one searched with its own duration added, results concatenated. */
  function DfsAll(d: seq<DfsEntry>, succs: seq<DfsEntry>, minutes: real, transfers: int, visited: set<Stop>,
                  open: seq<seq<DfsEntry>>, maxTime: real, maxHop: int, target: Stop,
                  transferMinutes: real): seq<seq<DfsEntry>>
    decreases HopsLeft(transfers, maxHop), 2, |succs|
  {
    if succs == [] then []
    else
      RecDfs(d, succs[0], minutes + transferMinutes + succs[0].key.duration, transfers, visited, open,
             maxTime, maxHop, target, transferMinutes)
      + DfsAll(d, succs[1..], minutes, transfers, visited, open, maxTime, maxHop, target, transferMinutes)
  }

  /**
   * A chain of entries rec_dfs accepts from a state: within the hop and time budget at every
   * step, ending at the target, each next entry from the dictionary, following the previous.
   */
  ghost predicate Chain(d: seq<DfsEntry>, q: seq<DfsEntry>, visited: set<Stop>, minutes: real, transfers: int,
                        maxTime: real, maxHop: int, target: Stop, transferMinutes: real)
    decreases |q|
  {
    && |q| >= 1 && transfers <= maxHop && minutes <= maxTime
    && if |q| == 1 then q[0].key.v2 == target
       else
         && q[0].key.v2 != target && q[1] in d && Follows(q[1], q[0], visited)
         && Chain(d, q[1..], visited + {q[0].key.v1}, minutes + transferMinutes + q[1].key.duration,
                  transfers + 1, maxTime, maxHop, target, transferMinutes)
  }

  /** A pruned call returns nothing. */
  lemma {:induction false} RecDfsPrunes(d: seq<DfsEntry>, last: DfsEntry, minutes: real, transfers: int, visited: set<Stop>,
                     open: seq<seq<DfsEntry>>, maxTime: real, maxHop: int, target: Stop, transferMinutes: real)
    requires transfers > maxHop || minutes > maxTime
    ensures RecDfs(d, last, minutes, transfers, visited, open, maxTime, maxHop, target, transferMinutes) == []
  {
  }

  /** Soundness: every itinerary from one open list is that list followed by an accepted chain from `last`. */
  lemma {:induction false} RecDfsSound(d: seq<DfsEntry>, last: DfsEntry, minutes: real, transfers: int,
                                       visited: set<Stop>, p: seq<DfsEntry>, maxTime: real, maxHop: int,
                                       target: Stop, transferMinutes: real)
    ensures forall c: seq<DfsEntry> :: c in RecDfs(d, last, minutes, transfers, visited, [p], maxTime, maxHop, target, transferMinutes) ==>
              |c| > |p| && c[..|p|] == p && c[|p|] == last &&
              Chain(d, c[|p|..], visited, minutes, transfers, maxTime, maxHop, target, transferMinutes)
    decreases HopsLeft(transfers, maxHop), 1, 0
  {
    if !(transfers > maxHop || minutes > maxTime) {
      var extended := Extend([p], last);
      assert extended == [p + [last]];
      if last.key.v2 == target {
        forall c | c in extended
          ensures |c| > |p| && c[..|p|] == p && c[|p|] == last &&
                  Chain(d, c[|p|..], visited, minutes, transfers, maxTime, maxHop, target, transferMinutes)
        {
          assert c == p + [last];
          assert c[|p|..] == [last];
        }
      } else {
        var succs := Successors(d, last, visited);
        var v' := visited + {last.key.v1};
        DfsAllSound(d, succs, minutes, transfers + 1, v', p + [last], maxTime, maxHop, target, transferMinutes);
        forall c | c in DfsAll(d, succs, minutes, transfers + 1, v', extended, maxTime, maxHop, target, transferMinutes)
          ensures |c| > |p| && c[..|p|] == p && c[|p|] == last &&
                  Chain(d, c[|p|..], visited, minutes, transfers, maxTime, maxHop, target, transferMinutes)
        {
          var q := c[|p|..];
          assert c[..|p| + 1] == p + [last];
          assert c[..|p|] == (p + [last])[..|p|];
          assert q[1..] == c[|p| + 1..];
          assert q[0] == last && q[1] == c[|p| + 1];
        }
      }
    }
  }

  /** Soundness of the successor loop: each itinerary continues the open list with one of the successors. */
  lemma {:induction false} DfsAllSound(d: seq<DfsEntry>, succs: seq<DfsEntry>, minutes: real, transfers: int,
                                       visited: set<Stop>, p: seq<DfsEntry>, maxTime: real, maxHop: int,
                                       target: Stop, transferMinutes: real)
    ensures forall c: seq<DfsEntry> :: c in DfsAll(d, succs, minutes, transfers, visited, [p], maxTime, maxHop, target, transferMinutes) ==>
              |c| > |p| && c[..|p|] == p && c[|p|] in succs &&
              Chain(d, c[|p|..], visited, minutes + transferMinutes + c[|p|].key.duration, transfers,
                    maxTime, maxHop, target, transferMinutes)
    decreases HopsLeft(transfers, maxHop), 2, |succs|
  {
    if succs != [] {
      var s0 := succs[0];
      RecDfsSound(d, s0, minutes + transferMinutes + s0.key.duration, transfers, visited, p,
                  maxTime, maxHop, target, transferMinutes);
      DfsAllSound(d, succs[1..], minutes, transfers, visited, p, maxTime, maxHop, target, transferMinutes);
      forall c | c in DfsAll(d, succs[1..], minutes, transfers, visited, [p], maxTime, maxHop, target, transferMinutes)
        ensures c[|p|] in succs
      {
        assert c[|p|] in succs[1..];
      }
    }
  }

  /** Completeness: every accepted chain from `last`, after the open list, is among the itineraries. */
  lemma {:induction false} RecDfsComplete(d: seq<DfsEntry>, q: seq<DfsEntry>, minutes: real, transfers: int,
                                          visited: set<Stop>, p: seq<DfsEntry>, maxTime: real, maxHop: int,
                                          target: Stop, transferMinutes: real)
    requires Chain(d, q, visited, minutes, transfers, maxTime, maxHop, target, transferMinutes)
    ensures p + q in RecDfs(d, q[0], minutes, transfers, visited, [p], maxTime, maxHop, target, transferMinutes)
    decreases HopsLeft(transfers, maxHop), 1, 0
  {
    RecDfsAccepts(d, q[0], minutes, transfers, visited, p, maxTime, maxHop, target, transferMinutes);
    if |q| == 1 {
      assert p + q == p + [q[0]];
    } else {
      var succs := Successors(d, q[0], visited);
      ChainTail(d, q, visited, minutes, transfers, maxTime, maxHop, target, transferMinutes);
      DfsAllComplete(d, succs, q[1..], minutes, transfers + 1, visited + {q[0].key.v1}, p + [q[0]],
                     maxTime, maxHop, target, transferMinutes);
      assert (p + [q[0]]) + q[1..] == p + q;
    }
  }

  /** An unpruned call on one open list: that list extended by `last`, searched on unless `last` reaches the target. */
  lemma RecDfsAccepts(d: seq<DfsEntry>, last: DfsEntry, minutes: real, transfers: int, visited: set<Stop>,
                      p: seq<DfsEntry>, maxTime: real, maxHop: int, target: Stop, transferMinutes: real)
    requires transfers <= maxHop && minutes <= maxTime
    ensures RecDfs(d, last, minutes, transfers, visited, [p], maxTime, maxHop, target, transferMinutes) ==
            if last.key.v2 == target then [p + [last]]
            else DfsAll(d, Successors(d, last, visited), minutes, transfers + 1, visited + {last.key.v1},
                        [p + [last]], maxTime, maxHop, target, transferMinutes)
  {
    assert Extend([p], last) == [p + [last]];
  }

  /** The rest of a chain of two or more entries is a chain from the first entry's successor. */
  lemma ChainTail(d: seq<DfsEntry>, q: seq<DfsEntry>, visited: set<Stop>, minutes: real, transfers: int,
                  maxTime: real, maxHop: int, target: Stop, transferMinutes: real)
    requires Chain(d, q, visited, minutes, transfers, maxTime, maxHop, target, transferMinutes) && |q| > 1
    ensures |q[1..]| >= 1 && q[1..][0] in Successors(d, q[0], visited)
    ensures Chain(d, q[1..], visited + {q[0].key.v1}, minutes + transferMinutes + q[1..][0].key.duration,
                  transfers + 1, maxTime, maxHop, target, transferMinutes)
  {
    assert q[1..][0] == q[1];
  }

  /** Completeness of the successor loop. */
  lemma {:induction false} DfsAllComplete(d: seq<DfsEntry>, succs: seq<DfsEntry>, q: seq<DfsEntry>, minutes: real,
                                          transfers: int, visited: set<Stop>, p: seq<DfsEntry>, maxTime: real,
                                          maxHop: int, target: Stop, transferMinutes: real)
    requires |q| >= 1 && q[0] in succs
    requires Chain(d, q, visited, minutes + transferMinutes + q[0].key.duration, transfers, maxTime, maxHop,
                   target, transferMinutes)
    ensures p + q in DfsAll(d, succs, minutes, transfers, visited, [p], maxTime, maxHop, target, transferMinutes)
    decreases HopsLeft(transfers, maxHop), 2, |succs|
  {
    if succs[0] == q[0] {
      RecDfsComplete(d, q, minutes + transferMinutes + q[0].key.duration, transfers, visited, p,
                     maxTime, maxHop, target, transferMinutes);
    } else {
      DfsAllComplete(d, succs[1..], q, minutes, transfers, visited, p, maxTime, maxHop, target, transferMinutes);
    }
  }

  /** An accepted chain from transfer count t has at most maxHop - t + 1 entries. */
  lemma {:induction false} ChainLength(d: seq<DfsEntry>, q: seq<DfsEntry>, visited: set<Stop>, minutes: real,
                                       transfers: int, maxTime: real, maxHop: int, target: Stop, transferMinutes: real)
    requires Chain(d, q, visited, minutes, transfers, maxTime, maxHop, target, transferMinutes)
    ensures |q| <= maxHop - transfers + 1
    ensures q[|q| - 1].key.v2 == target
    decreases |q|
  {
    if |q| > 1 {
      ChainLength(d, q[1..], visited + {q[0].key.v1}, minutes + transferMinutes + q[1].key.duration,
                  transfers + 1, maxTime, maxHop, target, transferMinutes);
    }
  }

  // ----- find_split_requests -----

  /** A stop of `line` that another line of the network also serves. */
  ghost predicate IsTransferPoint(s: Stop, line: Line, allLines: set<Line>)
  {
    s in line.stops && exists other :: other in allLines && other != line && s in other.stops
  }

  /** The transfer points of a line: its stops shared with any other line. */
  method TransferPoints(line: Line, allLines: set<Line>) returns (trans: set<Stop>)
    ensures forall s :: s in trans <==> IsTransferPoint(s, line, allLines)
  {
    trans := {};
    var others := allLines - {line};
    var rest := others;
    while rest != {}
      invariant rest <= others
      invariant forall s :: s in trans <==>
                  s in line.stops && exists other :: other in others - rest && s in other.stops
      decreases rest
    {
      var other :| other in rest;
      trans := trans + (set s | s in line.stops && s in other.stops);
      rest := rest - {other};
    }
  }

  /** The unordered stop pair a key hashes by. */
  function PairOf(k: KeyEdge): set<Stop>
  {
    {k.v1, k.v2}
  }

  /** No two entries have keys with the same stop pair. */
  predicate UniquePairs(d: seq<DfsEntry>)
  {
    forall i, j :: 0 <= i < j < |d| ==> PairOf(d[i].key) != PairOf(d[j].key)
  }

  /** The position of the entry whose key has the given stop pair (dictionary lookup). */
  function FindKey(d: seq<DfsEntry>, pair: set<Stop>): (r: Option<nat>)
    ensures r.Some? ==> r.value < |d| && PairOf(d[r.value].key) == pair
    ensures r.None? ==> forall i :: 0 <= i < |d| ==> PairOf(d[i].key) != pair
  {
    if d == [] then None
    else if PairOf(d[0].key) == pair then Some(0)
    else match FindKey(d[1..], pair)
      case None => None
      case Some(i) => Some(i + 1)
  }

  /**
   * dict[key] = leg: an entry whose key has the same stop pair (an equal key) keeps its own
   * key and takes the new leg; otherwise the entry is appended. Keys are never replaced.
   */
  function DictPut(d: seq<DfsEntry>, k: KeyEdge, leg: SplitRequest): (r: seq<DfsEntry>)
    ensures UniquePairs(d) ==> UniquePairs(r)
    ensures |r| == |d| + (if FindKey(d, PairOf(k)).None? then 1 else 0)
    ensures forall i :: 0 <= i < |d| ==> r[i].key == d[i].key
    ensures forall i :: 0 <= i < |d| && PairOf(d[i].key) != PairOf(k) ==> r[i] == d[i]
    ensures exists i :: 0 <= i < |r| && PairOf(r[i].key) == PairOf(k) && r[i].leg == leg
    ensures FindKey(d, PairOf(k)).None? ==> r[|d|] == DfsEntry(k, leg)
  {
    match FindKey(d, PairOf(k))
    case Some(i) =>
      var r := d[i := DfsEntry(d[i].key, leg)];
      assert PairOf(r[i].key) == PairOf(k) && r[i].leg == leg;
      r
    case None =>
      var r := d + [DfsEntry(k, leg)];
      assert r[|d|] == DfsEntry(k, leg);
      r
  }

  /** The legs of an itinerary of entries. */
  function LegsOf(chain: seq<DfsEntry>): (legs: seq<SplitRequest>)
    ensures |legs| == |chain| && forall i :: 0 <= i < |chain| ==> legs[i] == chain[i].leg
  {
    seq(|chain|, i requires 0 <= i < |chain| => chain[i].leg)
  }

  /** The entries whose key starts at the pick-up (start_tupels), in dictionary order. */
  function StartsAt(d: seq<DfsEntry>, v: Stop): (s: seq<DfsEntry>)
    ensures forall x :: x in s <==> x in d && x.key.v1 == v
  {
    if d == [] then []
    else (if d[0].key.v1 == v then [d[0]] else []) + StartsAt(d[1..], v)
  }

  /** The time budget: latest arrival minus earliest start minus 15 minutes. */
  function MaxTime(request: Request): real
  {
    GetInMinutes(request.latestArr) - GetInMinutes(request.earlStart) - 15.0
  }

  /** The searches from every start entry, concatenated. */
  function SearchAll(d: seq<DfsEntry>, starts: seq<DfsEntry>, pickUp: Stop, maxTime: real, maxHop: int,
                     target: Stop, transferMinutes: real): seq<seq<DfsEntry>>
  {
    if starts == [] then []
    else
      RecDfs(d, starts[0], transferMinutes + starts[0].key.duration, 1, {pickUp}, [[]], maxTime, maxHop,
             target, transferMinutes)
      + SearchAll(d, starts[1..], pickUp, maxTime, maxHop, target, transferMinutes)
  }

  /** The itineraries are exactly the accepted chains that begin with a start entry. */
  lemma {:induction false} SearchAllExact(d: seq<DfsEntry>, starts: seq<DfsEntry>, pickUp: Stop, maxTime: real,
                                          maxHop: int, target: Stop, transferMinutes: real, c: seq<DfsEntry>)
    ensures c in SearchAll(d, starts, pickUp, maxTime, maxHop, target, transferMinutes) <==>
              |c| >= 1 && c[0] in starts &&
              Chain(d, c, {pickUp}, transferMinutes + c[0].key.duration, 1, maxTime, maxHop, target, transferMinutes)
  {
    if starts != [] {
      var s0 := starts[0];
      SearchAllExact(d, starts[1..], pickUp, maxTime, maxHop, target, transferMinutes, c);
      RecDfsSound(d, s0, transferMinutes + s0.key.duration, 1, {pickUp}, [], maxTime, maxHop, target, transferMinutes);
      assert c[..0] == [] && c[0..] == c;
      if |c| >= 1 && c[0] == s0 &&
         Chain(d, c, {pickUp}, transferMinutes + c[0].key.duration, 1, maxTime, maxHop, target, transferMinutes) {
        RecDfsComplete(d, c, transferMinutes + s0.key.duration, 1, {pickUp}, [], maxTime, maxHop, target, transferMinutes);
        assert [] + c == c;
      }
    }
  }

  /** Some entry's key has the given stop pair. */
  ghost predicate HasPair(d: seq<DfsEntry>, pair: set<Stop>)
  {
    exists i :: 0 <= i < |d| && PairOf(d[i].key) == pair
  }

  /** `r` extends `d` and keeps every key of `d` in place. */
  ghost predicate KeysKept(d: seq<DfsEntry>, r: seq<DfsEntry>)
  {
    |r| >= |d| && forall i :: 0 <= i < |d| ==> r[i].key == d[i].key
  }

  lemma KeysKeptHasPair(d: seq<DfsEntry>, r: seq<DfsEntry>, pair: set<Stop>)
    requires KeysKept(d, r) && HasPair(d, pair)
    ensures HasPair(r, pair)
  {
    var i :| 0 <= i < |d| && PairOf(d[i].key) == pair;
    assert PairOf(r[i].key) == pair;
  }

  /** The leg a split-request entry stores for its key: the key's own stops and line. */
  function LegOf(id: int, k: KeyEdge): SplitRequest
  {
    SplitRequest(id, k.v1, k.v2, k.line)
  }

  /** The key of the leg between a stop and a point of its line, from the stop or towards it. */
  function TransferKey(stop: Stop, point: Stop, line: Line, toPoints: bool, dur: (Stop, Stop) -> real): KeyEdge
    requires stop in line.stops && point in line.stops
  {
    var v1 := if toPoints then stop else point;
    var v2 := if toPoints then point else stop;
    KeyEdge(v1, v2, line, TimeBetween(line, v1, v2, dur).value)
  }

  /** No other key of the set has the stop pair of `k`. */
  ghost predicate SoleOfPair(k: KeyEdge, keys: set<KeyEdge>)
  {
    forall k' :: k' in keys && PairOf(k') == PairOf(k) ==> k' == k
  }

  /** Each entry's key is one of the keys. */
  ghost predicate KeysFrom(d: seq<DfsEntry>, keys: set<KeyEdge>)
  {
    forall i :: 0 <= i < |d| ==> d[i].key in keys
  }

  /** Each entry's leg is that of a key with the entry's stop pair. */
  ghost predicate LegsFrom(d: seq<DfsEntry>, id: int, keys: set<KeyEdge>)
  {
    forall i :: 0 <= i < |d| ==> exists k :: k in keys && PairOf(k) == PairOf(d[i].key) && d[i].leg == LegOf(id, k)
  }

  /** Every key's stop pair has an entry. */
  ghost predicate PairsCovered(d: seq<DfsEntry>, keys: set<KeyEdge>)
  {
    forall k :: k in keys ==> HasPair(d, PairOf(k))
  }

  /** A key that shares its stop pair with no other key has exactly its own entry. */
  ghost predicate SolesKept(d: seq<DfsEntry>, id: int, keys: set<KeyEdge>)
  {
    forall k :: k in keys && SoleOfPair(k, keys) ==> DfsEntry(k, LegOf(id, k)) in d
  }

  /**
   * `d` is what putting every key of `keys` with its own leg yields, in some order: one entry per
   * stop pair, keys and legs taken from the keys (a later put overwrites the leg and keeps the
   * first key), every pair covered, and a key alone with its pair present as its own entry.
   */
  ghost predicate FilledFrom(d: seq<DfsEntry>, id: int, keys: set<KeyEdge>)
  {
    UniquePairs(d) && KeysFrom(d, keys) && LegsFrom(d, id, keys) && PairsCovered(d, keys) && SolesKept(d, id, keys)
  }

  /** Putting one more key with its leg extends what the dictionary was filled from by that key. */
  lemma FilledPut(d: seq<DfsEntry>, id: int, keys: set<KeyEdge>, k: KeyEdge, keys': set<KeyEdge>)
    requires FilledFrom(d, id, keys) && keys' == keys + {k}
    ensures FilledFrom(DictPut(d, k, LegOf(id, k)), id, keys')
  {
    var r := DictPut(d, k, LegOf(id, k));
    var j :| 0 <= j < |r| && PairOf(r[j].key) == PairOf(k) && r[j].leg == LegOf(id, k);
    PutKeysFrom(d, id, keys, k, r, j);
    PutPairsCovered(d, id, keys, k, r, j);
    PutSolesKept(d, id, keys, k, r, j);
  }

  /** After a put, each entry's key is one of the keys and its leg is that of a key with its pair. */
  lemma PutKeysFrom(d: seq<DfsEntry>, id: int, keys: set<KeyEdge>, k: KeyEdge, r: seq<DfsEntry>, j: nat)
    requires UniquePairs(d) && KeysFrom(d, keys) && LegsFrom(d, id, keys) && r == DictPut(d, k, LegOf(id, k))
    requires j < |r| && PairOf(r[j].key) == PairOf(k) && r[j].leg == LegOf(id, k)
    ensures KeysFrom(r, keys + {k}) && LegsFrom(r, id, keys + {k})
  {
    forall i | 0 <= i < |r|
      ensures r[i].key in keys + {k}
      ensures exists k0 :: k0 in keys + {k} && PairOf(k0) == PairOf(r[i].key) && r[i].leg == LegOf(id, k0)
    {
      if i < |d| {
        assert r[i].key == d[i].key;
        if i == j {
          assert k in keys + {k};
        } else {
          assert PairOf(r[i].key) != PairOf(k);
          assert r[i] == d[i];
          var k0 :| k0 in keys && PairOf(k0) == PairOf(d[i].key) && d[i].leg == LegOf(id, k0);
          assert k0 in keys + {k};
        }
      } else {
        assert r[i] == DfsEntry(k, LegOf(id, k));
      }
    }
  }

  /** After a put, every key's stop pair still has an entry, the new one's included. */
  lemma PutPairsCovered(d: seq<DfsEntry>, id: int, keys: set<KeyEdge>, k: KeyEdge, r: seq<DfsEntry>, j: nat)
    requires PairsCovered(d, keys) && r == DictPut(d, k, LegOf(id, k))
    requires j < |r| && PairOf(r[j].key) == PairOf(k)
    ensures PairsCovered(r, keys + {k})
  {
    forall k0 | k0 in keys + {k}
      ensures HasPair(r, PairOf(k0))
    {
      if k0 != k {
        assert HasPair(d, PairOf(k0));
        var i :| 0 <= i < |d| && PairOf(d[i].key) == PairOf(k0);
        assert r[i].key == d[i].key;
      }
    }
  }

  /** After a put, a key whose pair no other key shares still has its own entry. */
  lemma PutSolesKept(d: seq<DfsEntry>, id: int, keys: set<KeyEdge>, k: KeyEdge, r: seq<DfsEntry>, j: nat)
    requires KeysFrom(d, keys) && SolesKept(d, id, keys) && r == DictPut(d, k, LegOf(id, k))
    requires j < |r| && PairOf(r[j].key) == PairOf(k) && r[j].leg == LegOf(id, k)
    ensures SolesKept(r, id, keys + {k})
  {
    forall k0 | k0 in keys + {k} && SoleOfPair(k0, keys + {k})
      ensures DfsEntry(k0, LegOf(id, k0)) in r
    {
      if k0 == k {
        if j < |d| {
          assert r[j].key == d[j].key && d[j].key in keys + {k};
        } else {
          assert r[j] == DfsEntry(k, LegOf(id, k));
        }
        assert r[j] == DfsEntry(k, LegOf(id, k));
      } else {
        assert SoleOfPair(k0, keys);
        var i :| 0 <= i < |d| && d[i] == DfsEntry(k0, LegOf(id, k0));
        assert PairOf(d[i].key) != PairOf(k);
        assert r[i] == d[i];
      }
    }
  }

  /** Adds the leg between a stop and one transfer point, in the given direction. */
  method PutTransferLeg(d: seq<DfsEntry>, id: int, stop: Stop, point: Stop, line: Line, toPoints: bool,
                        dur: (Stop, Stop) -> real)
    returns (r: Result<seq<DfsEntry>>)
    ensures r.Failure? <==> stop !in line.stops || point !in line.stops
    ensures r.Success? ==>
              var k := TransferKey(stop, point, line, toPoints, dur);
              r.value == DictPut(d, k, LegOf(id, k))
  {
    var v1 := if toPoints then stop else point;
    var v2 := if toPoints then point else stop;
    var duration := CalcTimeMulti(v1, v2, line, dur);
    if duration.None? {
      assert stop !in line.stops || point !in line.stops;
      return Failure("ValueError: stop is not on the line");
    }
    r := Success(DictPut(d, KeyEdge(v1, v2, line, duration.value), SplitRequest(id, v1, v2, line)));
  }

  /** The keys of the legs between a stop and each of the points, when all lie on the line. */
  ghost function PointKeys(stop: Stop, points: seq<Stop>, line: Line, toPoints: bool, dur: (Stop, Stop) -> real)
    : set<KeyEdge>
  {
    set t | t in points && stop in line.stops && t in line.stops :: TransferKey(stop, t, line, toPoints, dur)
  }

  /** Putting the leg to one more point extends the keys by that leg's key. */
  lemma FilledPutPoint(d: seq<DfsEntry>, id: int, keys: set<KeyEdge>, stop: Stop, points: seq<Stop>, k: nat,
                       line: Line, toPoints: bool, dur: (Stop, Stop) -> real, key: KeyEdge)
    requires k < |points| && stop in line.stops && points[k] in line.stops
    requires FilledFrom(d, id, keys + PointKeys(stop, points[..k], line, toPoints, dur))
    requires key == TransferKey(stop, points[k], line, toPoints, dur)
    ensures FilledFrom(DictPut(d, key, LegOf(id, key)), id, keys + PointKeys(stop, points[..k + 1], line, toPoints, dur))
  {
    ghost var done := keys + PointKeys(stop, points[..k], line, toPoints, dur);
    PointKeysSnoc(stop, points, k, line, toPoints, dur);
    FilledPut(d, id, done, key, keys + PointKeys(stop, points[..k + 1], line, toPoints, dur));
  }

  /** One more point adds its leg's key. */
  lemma PointKeysSnoc(stop: Stop, points: seq<Stop>, k: nat, line: Line, toPoints: bool, dur: (Stop, Stop) -> real)
    requires k < |points| && stop in line.stops && points[k] in line.stops
    ensures PointKeys(stop, points[..k + 1], line, toPoints, dur) ==
            PointKeys(stop, points[..k], line, toPoints, dur) + {TransferKey(stop, points[k], line, toPoints, dur)}
  {
    assert points[..k + 1] == points[..k] + [points[k]];
  }

  /** The legs to the first k points are in: the stop and those points lie on the line. */
  ghost predicate PointLegsPut(d: seq<DfsEntry>, id: int, keys: set<KeyEdge>, stop: Stop, points: seq<Stop>, k: nat,
                               line: Line, toPoints: bool, dur: (Stop, Stop) -> real)
    requires k <= |points|
  {
    && FilledFrom(d, id, keys + PointKeys(stop, points[..k], line, toPoints, dur))
    && (k > 0 ==> stop in line.stops)
    && (forall j :: 0 <= j < k ==> points[j] in line.stops)
  }

  /** Adds the leg to the k-th point, keeping track of the keys put so far. */
  method PutPointLeg(d: seq<DfsEntry>, ghost keys: set<KeyEdge>, id: int, stop: Stop, points: seq<Stop>, k: nat,
                     line: Line, toPoints: bool, dur: (Stop, Stop) -> real)
    returns (r: Result<seq<DfsEntry>>)
    requires k < |points| && PointLegsPut(d, id, keys, stop, points, k, line, toPoints, dur)
    ensures r.Failure? <==> stop !in line.stops || points[k] !in line.stops
    ensures r.Success? ==> PointLegsPut(r.value, id, keys, stop, points, k + 1, line, toPoints, dur)
  {
    r := PutTransferLeg(d, id, stop, points[k], line, toPoints, dur);
    if r.Success? {
      FilledPutPoint(d, id, keys, stop, points, k, line, toPoints, dur,
                     TransferKey(stop, points[k], line, toPoints, dur));
    }
  }

  /** Adds the legs from a stop to each of the given transfer points (or from them to the stop). */
  method PutTransferLegs(d: seq<DfsEntry>, ghost keys: set<KeyEdge>, id: int, stop: Stop, points: seq<Stop>,
                         line: Line, toPoints: bool, dur: (Stop, Stop) -> real)
    returns (r: Result<seq<DfsEntry>>)
    requires FilledFrom(d, id, keys)
    ensures r.Success? ==> FilledFrom(r.value, id, keys + PointKeys(stop, points, line, toPoints, dur))
    ensures r.Failure? <==>
              |points| > 0 && (stop !in line.stops || exists k :: 0 <= k < |points| && points[k] !in line.stops)
  {
    var dict := d;
    assert keys + PointKeys(stop, points[..0], line, toPoints, dur) == keys;
    for k := 0 to |points|
      invariant PointLegsPut(dict, id, keys, stop, points, k, line, toPoints, dur)
    {
      var next := PutPointLeg(dict, keys, id, stop, points, k, line, toPoints, dur);
      if next.Failure? {
        return Failure(next.error);
      }
      dict := next.value;
    }
    assert points[..|points|] == points;
    r := Success(dict);
  }

  /**
   * The keys of the legs from a stop to the transfer points of its line (or from them to the
   * stop), when the stop lies on exactly one line and on that line.
   */
  ghost function TransferKeys(stop: Stop, lines: set<Line>, allLines: set<Line>, toPoints: bool,
                              dur: (Stop, Stop) -> real): set<KeyEdge>
  {
    if |lines| == 1 then
      set l, t | l in lines && t in l.stops && IsTransferPoint(t, l, allLines) && stop in l.stops
        :: TransferKey(stop, t, l, toPoints, dur)
    else {}
  }

  /** The transfer legs of a stop fail: it lies on one line, which has a transfer point but not the stop. */
  ghost predicate TransferFails(stop: Stop, lines: set<Line>, allLines: set<Line>)
  {
    |lines| == 1 && exists l, t :: l in lines && IsTransferPoint(t, l, allLines) && stop !in l.stops
  }

  /** A set of one element holds nothing else. */
  lemma SingletonMember<T>(s: set<T>, a: T, b: T)
    requires |s| == 1 && a in s && b in s
    ensures a == b
  {
    assert |s - {a}| == 0;
    assert b !in s - {a};
  }

  /** The transfer legs of the pick-up (from it) or of the drop-off (towards it). */
  method PutStopLegs(d: seq<DfsEntry>, ghost keys: set<KeyEdge>, id: int, stop: Stop, lines: set<Line>,
                     allLines: set<Line>, toPoints: bool, dur: (Stop, Stop) -> real)
    returns (r: Result<seq<DfsEntry>>)
    requires FilledFrom(d, id, keys)
    ensures r.Failure? <==> TransferFails(stop, lines, allLines)
    ensures r.Success? ==> FilledFrom(r.value, id, keys + TransferKeys(stop, lines, allLines, toPoints, dur))
  {
    if |lines| != 1 {
      assert keys + TransferKeys(stop, lines, allLines, toPoints, dur) == keys;
      return Success(d);
    }
    var line :| line in lines;
    forall l | l in lines
      ensures l == line
    {
      SingletonMember(lines, l, line);
    }
    var trans := TransferPoints(line, allLines);
    var points: seq<Stop> := [];
    if trans != {} {
      points := IterationOrder(trans);
    }
    assert forall t :: t in points <==> IsTransferPoint(t, line, allLines) by {
      forall t
        ensures t in points <==> IsTransferPoint(t, line, allLines)
      {
        assert t in (set x | x in points) <==> t in points;
      }
    }
    assert TransferKeys(stop, lines, allLines, toPoints, dur) == PointKeys(stop, points, line, toPoints, dur);
    if points == [] {
      assert !TransferFails(stop, lines, allLines);
      assert keys + PointKeys(stop, points, line, toPoints, dur) == keys;
      return Success(d);
    }
    assert forall k :: 0 <= k < |points| ==> IsTransferPoint(points[k], line, allLines);
    r := PutTransferLegs(d, keys, id, stop, points, line, toPoints, dur);
    if r.Failure? {
      assert IsTransferPoint(points[0], line, allLines);
    }
  }

  /** The key of the direct leg, when pick-up and drop-off each lie on one line and it is the same line. */
  ghost function DirectKeys(request: Request, pickUpLines: set<Line>, dropOffLines: set<Line>,
                            dur: (Stop, Stop) -> real): set<KeyEdge>
  {
    if |pickUpLines| == 1 && |dropOffLines| == 1 then
      set l | l in pickUpLines * dropOffLines && request.pickUp in l.stops && request.dropOff in l.stops
        :: TransferKey(request.pickUp, request.dropOff, l, true, dur)
    else {}
  }

  /** The keys of a sequence, as a set. */
  ghost function KeysIn(es: seq<KeyEdge>): set<KeyEdge>
  {
    set e | e in es
  }

  /** Every key find_split_requests puts: the network edges, the transfer legs and the direct leg. */
  ghost function SplitKeys(request: Request, pickUpLines: set<Line>, dropOffLines: set<Line>, allLines: set<Line>,
                           aggregatedEdges: seq<KeyEdge>, dur: (Stop, Stop) -> real): set<KeyEdge>
  {
    KeysIn(aggregatedEdges)
    + TransferKeys(request.pickUp, pickUpLines, allLines, true, dur)
    + TransferKeys(request.dropOff, dropOffLines, allLines, false, dur)
    + DirectKeys(request, pickUpLines, dropOffLines, dur)
  }

  /** Filling the dictionary fails: some transfer leg or the direct leg has a stop off its line. */
  ghost predicate SplitFails(request: Request, pickUpLines: set<Line>, dropOffLines: set<Line>, allLines: set<Line>)
  {
    || TransferFails(request.pickUp, pickUpLines, allLines)
    || TransferFails(request.dropOff, dropOffLines, allLines)
    || (|pickUpLines| == 1 && |dropOffLines| == 1 &&
        exists l :: l in pickUpLines * dropOffLines && (request.pickUp !in l.stops || request.dropOff !in l.stops))
  }

  /** Putting the next edge extends the keys by that edge. */
  lemma FilledPutEdge(d: seq<DfsEntry>, id: int, es: seq<KeyEdge>, k: nat)
    requires k < |es| && FilledFrom(d, id, KeysIn(es[..k]))
    ensures FilledFrom(DictPut(d, es[k], LegOf(id, es[k])), id, KeysIn(es[..k + 1]))
  {
    assert es[..k + 1] == es[..k] + [es[k]];
    assert KeysIn(es[..k + 1]) == KeysIn(es[..k]) + {es[k]};
    FilledPut(d, id, KeysIn(es[..k]), es[k], KeysIn(es[..k + 1]));
  }

  /** The entries of the network's edges, each with the leg along its own line. */
  method PutNetworkEdges(id: int, aggregatedEdges: seq<KeyEdge>) returns (d: seq<DfsEntry>)
    ensures FilledFrom(d, id, KeysIn(aggregatedEdges))
  {
    d := [];
    for k := 0 to |aggregatedEdges|
      invariant FilledFrom(d, id, KeysIn(aggregatedEdges[..k]))
    {
      var aggEdge := aggregatedEdges[k];
      FilledPutEdge(d, id, aggregatedEdges, k);
      d := DictPut(d, aggEdge, SplitRequest(id, aggEdge.v1, aggEdge.v2, aggEdge.line));
    }
    assert aggregatedEdges[..|aggregatedEdges|] == aggregatedEdges;
  }

  /**
   * The dictionary part of find_split_requests: the network edges first, then the legs from
   * the pick-up to its transfer points, from the transfer points to the drop-off, and the direct
   * leg when pick-up and drop-off each lie on one line and those lines meet. It fails when a
   * leg's stop is not on its line (calc_time_multi gives None).
   */
  method BuildSplitDict(request: Request, pickUpLines: set<Line>, dropOffLines: set<Line>, allLines: set<Line>,
                        aggregatedEdges: seq<KeyEdge>, dur: (Stop, Stop) -> real)
    returns (r: Result<seq<DfsEntry>>)
    ensures r.Failure? <==> SplitFails(request, pickUpLines, dropOffLines, allLines)
    ensures r.Success? ==>
              FilledFrom(r.value, request.id, SplitKeys(request, pickUpLines, dropOffLines, allLines, aggregatedEdges, dur))
  {
    var d := PutNetworkEdges(request.id, aggregatedEdges);
    ghost var keys := KeysIn(aggregatedEdges);
    var put := PutStopLegs(d, keys, request.id, request.pickUp, pickUpLines, allLines, true, dur);
    if put.Failure? {
      return Failure(put.error);
    }
    keys := keys + TransferKeys(request.pickUp, pickUpLines, allLines, true, dur);
    put := PutStopLegs(put.value, keys, request.id, request.dropOff, dropOffLines, allLines, false, dur);
    if put.Failure? {
      return Failure(put.error);
    }
    keys := keys + TransferKeys(request.dropOff, dropOffLines, allLines, false, dur);
    d := put.value;
    r := PutDirectLeg(d, keys, request, pickUpLines, dropOffLines, dur);
  }

  /** The direct leg from the pick-up to the drop-off, when both lie on one line and it is the same. */
  method PutDirectLeg(d: seq<DfsEntry>, ghost keys: set<KeyEdge>, request: Request, pickUpLines: set<Line>,
                      dropOffLines: set<Line>, dur: (Stop, Stop) -> real)
    returns (r: Result<seq<DfsEntry>>)
    requires FilledFrom(d, request.id, keys)
    ensures r.Failure? <==>
              |pickUpLines| == 1 && |dropOffLines| == 1 &&
              exists l :: l in pickUpLines * dropOffLines && (request.pickUp !in l.stops || request.dropOff !in l.stops)
    ensures r.Success? ==> FilledFrom(r.value, request.id, keys + DirectKeys(request, pickUpLines, dropOffLines, dur))
  {
    if |pickUpLines| != 1 || |dropOffLines| != 1 {
      assert keys + DirectKeys(request, pickUpLines, dropOffLines, dur) == keys;
      return Success(d);
    }
    var combiLines := pickUpLines * dropOffLines;
    if |combiLines| == 0 {
      assert keys + DirectKeys(request, pickUpLines, dropOffLines, dur) == keys;
      return Success(d);
    }
    var line :| line in combiLines;
    forall l | l in combiLines
      ensures l == line
    {
      SingletonMember(pickUpLines, l, line);
    }
    var duration := CalcTimeMulti(request.pickUp, request.dropOff, line, dur);
    if duration.None? {
      return Failure("ValueError: stop is not on the line");
    }
    var key := KeyEdge(request.pickUp, request.dropOff, line, duration.value);
    assert key == TransferKey(request.pickUp, request.dropOff, line, true, dur);
    assert DirectKeys(request, pickUpLines, dropOffLines, dur) == {key};
    FilledPut(d, request.id, keys, key, keys + {key});
    r := Success(DictPut(d, key, SplitRequest(request.id, request.pickUp, request.dropOff, line)));
  }

  /**
   * What the split-request dictionary holds: an entry for the stop pair of every network edge, of
   * the leg from the pick-up to each transfer point of its one line, of the leg from each transfer
   * point of the drop-off's one line to the drop-off, and of the direct leg; a leg whose pair no
   * other key shares is there exactly, with its duration along the line and its split request.
   */
  lemma SplitDictEntries(d: seq<DfsEntry>, request: Request, pickUpLines: set<Line>, dropOffLines: set<Line>,
                         allLines: set<Line>, aggregatedEdges: seq<KeyEdge>, dur: (Stop, Stop) -> real,
                         l: Line, t: Stop)
    requires FilledFrom(d, request.id, SplitKeys(request, pickUpLines, dropOffLines, allLines, aggregatedEdges, dur))
    ensures forall e :: e in aggregatedEdges ==> HasPair(d, PairOf(e))
    ensures |pickUpLines| == 1 && l in pickUpLines && IsTransferPoint(t, l, allLines) && request.pickUp in l.stops ==>
              var k := KeyEdge(request.pickUp, t, l, TimeBetween(l, request.pickUp, t, dur).value);
              HasPair(d, {request.pickUp, t}) &&
              (SoleOfPair(k, SplitKeys(request, pickUpLines, dropOffLines, allLines, aggregatedEdges, dur)) ==>
                 DfsEntry(k, SplitRequest(request.id, request.pickUp, t, l)) in d)
    ensures |dropOffLines| == 1 && l in dropOffLines && IsTransferPoint(t, l, allLines) && request.dropOff in l.stops ==>
              var k := KeyEdge(t, request.dropOff, l, TimeBetween(l, t, request.dropOff, dur).value);
              HasPair(d, {t, request.dropOff}) &&
              (SoleOfPair(k, SplitKeys(request, pickUpLines, dropOffLines, allLines, aggregatedEdges, dur)) ==>
                 DfsEntry(k, SplitRequest(request.id, t, request.dropOff, l)) in d)
    ensures |pickUpLines| == 1 && |dropOffLines| == 1 && l in pickUpLines * dropOffLines &&
            request.pickUp in l.stops && request.dropOff in l.stops ==>
              var k := KeyEdge(request.pickUp, request.dropOff, l, TimeBetween(l, request.pickUp, request.dropOff, dur).value);
              HasPair(d, {request.pickUp, request.dropOff}) &&
              (SoleOfPair(k, SplitKeys(request, pickUpLines, dropOffLines, allLines, aggregatedEdges, dur)) ==>
                 DfsEntry(k, SplitRequest(request.id, request.pickUp, request.dropOff, l)) in d)
  {
    var keys := SplitKeys(request, pickUpLines, dropOffLines, allLines, aggregatedEdges, dur);
    forall e | e in aggregatedEdges
      ensures HasPair(d, PairOf(e))
    {
      assert e in KeysIn(aggregatedEdges);
    }
    if |pickUpLines| == 1 && l in pickUpLines && IsTransferPoint(t, l, allLines) && request.pickUp in l.stops {
      var k := TransferKey(request.pickUp, t, l, true, dur);
      assert k in TransferKeys(request.pickUp, pickUpLines, allLines, true, dur);
      assert PairOf(k) == {request.pickUp, t};
    }
    if |dropOffLines| == 1 && l in dropOffLines && IsTransferPoint(t, l, allLines) && request.dropOff in l.stops {
      var k := TransferKey(request.dropOff, t, l, false, dur);
      assert k in TransferKeys(request.dropOff, dropOffLines, allLines, false, dur);
      assert PairOf(k) == {t, request.dropOff};
    }
    if |pickUpLines| == 1 && |dropOffLines| == 1 && l in pickUpLines * dropOffLines &&
       request.pickUp in l.stops && request.dropOff in l.stops {
      var k := TransferKey(request.pickUp, request.dropOff, l, true, dur);
      assert k in DirectKeys(request, pickUpLines, dropOffLines, dur);
      assert PairOf(k) == {request.pickUp, request.dropOff};
    }
  }

  /**
   * The split-request dictionary holds nothing else: each entry's split request has the request's
   * id and joins the entry's stop pair, and its key is a network edge, a leg between the pick-up
   * and a transfer point of its one line, between a transfer point of the drop-off's one line and
   * the drop-off, or the direct leg, each of the last three timed along its line.
   */
  lemma SplitDictKeysOnly(d: seq<DfsEntry>, request: Request, pickUpLines: set<Line>, dropOffLines: set<Line>,
                          allLines: set<Line>, aggregatedEdges: seq<KeyEdge>, dur: (Stop, Stop) -> real, i: nat)
    requires FilledFrom(d, request.id, SplitKeys(request, pickUpLines, dropOffLines, allLines, aggregatedEdges, dur))
    requires i < |d|
    ensures d[i].leg.id == request.id && {d[i].leg.pickUp, d[i].leg.dropOff} == PairOf(d[i].key)
    ensures SplitKeyKind(d[i].key, request, pickUpLines, dropOffLines, allLines, aggregatedEdges, dur)
  {
    var keys := SplitKeys(request, pickUpLines, dropOffLines, allLines, aggregatedEdges, dur);
    assert LegsFrom(d, request.id, keys) && KeysFrom(d, keys);
    assert exists k :: k in keys && PairOf(k) == PairOf(d[i].key) && d[i].leg == LegOf(request.id, k);
    var k0 :| k0 in keys && PairOf(k0) == PairOf(d[i].key) && d[i].leg == LegOf(request.id, k0);
    assert {d[i].leg.pickUp, d[i].leg.dropOff} == PairOf(k0);
    SplitKeyKinds(d[i].key, request, pickUpLines, dropOffLines, allLines, aggregatedEdges, dur);
  }

  /** The four kinds of key find_split_requests puts. */
  ghost predicate SplitKeyKind(k: KeyEdge, request: Request, pickUpLines: set<Line>, dropOffLines: set<Line>,
                               allLines: set<Line>, aggregatedEdges: seq<KeyEdge>, dur: (Stop, Stop) -> real)
  {
    || k in aggregatedEdges
    || (|pickUpLines| == 1 && k.v1 == request.pickUp && k.line in pickUpLines &&
        IsTransferPoint(k.v2, k.line, allLines) && TimeBetween(k.line, k.v1, k.v2, dur) == Some(k.duration))
    || (|dropOffLines| == 1 && k.v2 == request.dropOff && k.line in dropOffLines &&
        IsTransferPoint(k.v1, k.line, allLines) && TimeBetween(k.line, k.v1, k.v2, dur) == Some(k.duration))
    || (|pickUpLines| == 1 && |dropOffLines| == 1 && k.v1 == request.pickUp && k.v2 == request.dropOff &&
        k.line in pickUpLines * dropOffLines && TimeBetween(k.line, k.v1, k.v2, dur) == Some(k.duration))
  }

  /** Each key put is of one of the four kinds. */
  lemma SplitKeyKinds(k: KeyEdge, request: Request, pickUpLines: set<Line>, dropOffLines: set<Line>,
                      allLines: set<Line>, aggregatedEdges: seq<KeyEdge>, dur: (Stop, Stop) -> real)
    requires k in SplitKeys(request, pickUpLines, dropOffLines, allLines, aggregatedEdges, dur)
    ensures SplitKeyKind(k, request, pickUpLines, dropOffLines, allLines, aggregatedEdges, dur)
  {
    if k in TransferKeys(request.pickUp, pickUpLines, allLines, true, dur) {
      var l, t :| l in pickUpLines && t in l.stops && IsTransferPoint(t, l, allLines) && request.pickUp in l.stops &&
                  k == TransferKey(request.pickUp, t, l, true, dur);
    } else if k in TransferKeys(request.dropOff, dropOffLines, allLines, false, dur) {
      var l, t :| l in dropOffLines && t in l.stops && IsTransferPoint(t, l, allLines) && request.dropOff in l.stops &&
                  k == TransferKey(request.dropOff, t, l, false, dur);
    } else if k in DirectKeys(request, pickUpLines, dropOffLines, dur) {
      var l :| l in pickUpLines * dropOffLines && request.pickUp in l.stops && request.dropOff in l.stops &&
               k == TransferKey(request.pickUp, request.dropOff, l, true, dur);
    }
  }

  /**
   * The search part of find_split_requests: rec_dfs from every entry leaving the pick-up. The
   * itineraries found are exactly the accepted chains that start with such an entry, and each is
   * within the hop bound and ends at the drop-off.
   */
  method SearchStarts(d: seq<DfsEntry>, pickUp: Stop, dropOff: Stop, maxTime: real, maxHop: int,
                      transferMinutes: real)
    returns (found: seq<seq<DfsEntry>>)
    ensures forall c: seq<DfsEntry> :: c in found <==>
              |c| >= 1 && c[0] in d && c[0].key.v1 == pickUp &&
              Chain(d, c, {pickUp}, transferMinutes + c[0].key.duration, 1, maxTime, maxHop, dropOff, transferMinutes)
    ensures forall c: seq<DfsEntry> :: c in found ==> |c| <= maxHop && c[|c| - 1].key.v2 == dropOff
  {
    found := SearchEach(d, StartsAt(d, pickUp), pickUp, maxTime, maxHop, dropOff, transferMinutes);
    SearchFromStarts(d, pickUp, dropOff, maxTime, maxHop, transferMinutes);
  }

  /** The loop of find_split_requests over the start entries: rec_dfs from each, in turn. */
  method SearchEach(d: seq<DfsEntry>, starts: seq<DfsEntry>, pickUp: Stop, maxTime: real, maxHop: int,
                    dropOff: Stop, transferMinutes: real)
    returns (found: seq<seq<DfsEntry>>)
    ensures found == SearchAll(d, starts, pickUp, maxTime, maxHop, dropOff, transferMinutes)
  {
    found := [];
    for k := 0 to |starts|
      invariant found == SearchAll(d, starts[..k], pickUp, maxTime, maxHop, dropOff, transferMinutes)
    {
      found := found + RecDfs(d, starts[k], transferMinutes + starts[k].key.duration, 1, {pickUp}, [[]],
                              maxTime, maxHop, dropOff, transferMinutes);
      SearchAllSnoc(d, starts[..k], starts[k], pickUp, maxTime, maxHop, dropOff, transferMinutes);
      assert starts[..k + 1] == starts[..k] + [starts[k]];
    }
    assert starts[..|starts|] == starts;
  }

  /** The searches from the start entries find exactly the accepted chains from the pick-up. */
  lemma {:induction false} SearchFromStarts(d: seq<DfsEntry>, pickUp: Stop, dropOff: Stop, maxTime: real, maxHop: int,
                         transferMinutes: real)
    ensures forall c: seq<DfsEntry> ::
              c in SearchAll(d, StartsAt(d, pickUp), pickUp, maxTime, maxHop, dropOff, transferMinutes) <==>
              |c| >= 1 && c[0] in d && c[0].key.v1 == pickUp &&
              Chain(d, c, {pickUp}, transferMinutes + c[0].key.duration, 1, maxTime, maxHop, dropOff, transferMinutes)
    ensures forall c: seq<DfsEntry> ::
              c in SearchAll(d, StartsAt(d, pickUp), pickUp, maxTime, maxHop, dropOff, transferMinutes) ==>
              |c| <= maxHop && c[|c| - 1].key.v2 == dropOff
  {
    var starts := StartsAt(d, pickUp);
    forall c: seq<DfsEntry>
      ensures c in SearchAll(d, starts, pickUp, maxTime, maxHop, dropOff, transferMinutes) <==>
              |c| >= 1 && c[0] in d && c[0].key.v1 == pickUp &&
              Chain(d, c, {pickUp}, transferMinutes + c[0].key.duration, 1, maxTime, maxHop, dropOff, transferMinutes)
    {
      SearchAllExact(d, starts, pickUp, maxTime, maxHop, dropOff, transferMinutes, c);
    }
    forall c: seq<DfsEntry> | c in SearchAll(d, starts, pickUp, maxTime, maxHop, dropOff, transferMinutes)
      ensures |c| <= maxHop && c[|c| - 1].key.v2 == dropOff
    {
      SearchAllExact(d, starts, pickUp, maxTime, maxHop, dropOff, transferMinutes, c);
      ChainLength(d, c, {pickUp}, transferMinutes + c[0].key.duration, 1, maxTime, maxHop, dropOff, transferMinutes);
    }
  }

  /**
   * find_split_requests: the lines at the pick-up and drop-off (the union of their edges' line
   * sets), the split-request dictionary, and rec_dfs from every entry leaving the pick-up with
   * the time budget MaxTime and the hop bound numb_transfer + NUMBER_OF_EXTRA_TRANSFERS. The
   * ghost outputs are the dictionary and the itineraries as entries.
   */
  method FindSplitRequests(request: Request, graph: LineGraph, allLines: set<Line>, aggregatedEdges: seq<KeyEdge>,
                           dur: (Stop, Stop) -> real, transferMinutes: real, extraTransfers: int)
    returns (r: Result<seq<seq<SplitRequest>>>, ghost dict: seq<DfsEntry>, ghost chains: seq<seq<DfsEntry>>)
    requires graph.Valid()
    ensures request.pickUp !in graph.graphDict || request.dropOff !in graph.graphDict ==> r.Failure?
    ensures request.pickUp in graph.graphDict && graph.graphDict[request.pickUp] == [] ==> r.Failure?
    ensures request.dropOff in graph.graphDict && graph.graphDict[request.dropOff] == [] ==> r.Failure?
    ensures request.pickUp in graph.graphDict && request.dropOff in graph.graphDict &&
            graph.graphDict[request.pickUp] != [] && graph.graphDict[request.dropOff] != [] ==>
              (r.Failure? <==> SplitFails(request, UnionLines(graph.graphDict[request.pickUp]),
                                          UnionLines(graph.graphDict[request.dropOff]), allLines))
    ensures r.Success? ==>
              request.pickUp in graph.graphDict && request.dropOff in graph.graphDict &&
              FilledFrom(dict, request.id, SplitKeys(request, UnionLines(graph.graphDict[request.pickUp]),
                                                     UnionLines(graph.graphDict[request.dropOff]), allLines,
                                                     aggregatedEdges, dur))
    ensures r.Success? ==> |r.value| == |chains| && forall i :: 0 <= i < |chains| ==> r.value[i] == LegsOf(chains[i])
    ensures r.Success? ==> forall c: seq<DfsEntry> :: c in chains <==>
              |c| >= 1 && c[0] in dict && c[0].key.v1 == request.pickUp &&
              Chain(dict, c, {request.pickUp}, transferMinutes + c[0].key.duration, 1, MaxTime(request),
                    request.numbTransfer + extraTransfers, request.dropOff, transferMinutes)
    ensures r.Success? ==> forall c: seq<DfsEntry> :: c in chains ==>
              |c| <= request.numbTransfer + extraTransfers && c[|c| - 1].key.v2 == request.dropOff
  {
    dict, chains := [], [];
    if request.pickUp !in graph.graphDict || request.dropOff !in graph.graphDict {
      return Failure("KeyError"), dict, chains;
    }
    var pickUpEdges := graph.EdgesOfNode(request.pickUp);
    var dropOffEdges := graph.EdgesOfNode(request.dropOff);
    if pickUpEdges == [] || dropOffEdges == [] {
      return Failure("TypeError: set.union() needs an argument"), dict, chains;
    }
    var pickUpLines := UnionLines(pickUpEdges);
    var dropOffLines := UnionLines(dropOffEdges);
    var built := BuildSplitDict(request, pickUpLines, dropOffLines, allLines, aggregatedEdges, dur);
    if built.Failure? {
      return Failure(built.error), dict, chains;
    }
    var d := built.value;
    var found := SearchStarts(d, request.pickUp, request.dropOff, MaxTime(request),
                              request.numbTransfer + extraTransfers, transferMinutes);
    var result := seq(|found|, i requires 0 <= i < |found| => LegsOf(found[i]));
    r, dict, chains := Success(result), d, found;
  }

  /** Searching one more start appends its itineraries. */
  lemma {:induction false} SearchAllSnoc(d: seq<DfsEntry>, starts: seq<DfsEntry>, s: DfsEntry, pickUp: Stop,
                                         maxTime: real, maxHop: int, target: Stop, transferMinutes: real)
    ensures SearchAll(d, starts + [s], pickUp, maxTime, maxHop, target, transferMinutes) ==
            SearchAll(d, starts, pickUp, maxTime, maxHop, target, transferMinutes) +
            RecDfs(d, s, transferMinutes + s.key.duration, 1, {pickUp}, [[]], maxTime, maxHop, target, transferMinutes)
  {
    if starts == [] {
      assert [s][1..] == [];
    } else {
      assert (starts + [s])[1..] == starts[1..] + [s];
      SearchAllSnoc(d, starts[1..], s, pickUp, maxTime, maxHop, target, transferMinutes);
    }
  }
}
