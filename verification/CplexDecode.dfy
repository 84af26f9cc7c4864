/**
 * convert_to_plan: reading the bus routes off a solution of the constraint model. The
 * solution is a value for every variable. For each line, its i-th bus takes the tour that
 * starts on the (i+1)-th arc out of the line's idle event whose rounded value is 1, or parks
 * at the depot when there is no such arc. A tour follows, from each event, the first arc
 * whose rounded value is 1 until it is back at the idle event; events of legs whose option
 * was not chosen are skipped, and subsequent events at the same stop share one route stop.
 */
module CplexDecode {
  import opened Wrappers
  import opened Timer
  import opened Network
  import opened PriorityQueue
  import opened LineGraph
  import opened EventGraph
  import opened TimeConstraints
  import opened CplexModel

  // ----- rounded solution values -----

  /** The rounded values of some variables (round() on each solution value). */
  function Rounded(val: Var -> real, vs: seq<Var>): (rv: seq<int>)
    ensures |rv| == |vs|
  {
    seq(|vs|, k requires 0 <= k < |vs| => RoundHalfEven(val(vs[k])))
  }

  /** Each rounded value is the solution value rounded half to even. */
  lemma RoundedAt(val: Var -> real, vs: seq<Var>, k: nat)
    requires k < |vs|
    ensures Rounded(val, vs)[k] == RoundHalfEven(val(vs[k]))
    ensures val(vs[k]) - 0.5 <= Rounded(val, vs)[k] as real <= val(vs[k]) + 0.5
  {
  }

  /**
   * list.index(1) on the rounded values of some variables: the first position whose value
   * rounds to 1, or None where Python raises ValueError.
   */
  function IndexOfOne(val: Var -> real, vs: seq<Var>): (r: Option<nat>)
    ensures r.Some? ==> r.value < |vs|
  {
    if vs == [] then None
    else if RoundHalfEven(val(vs[0])) == 1 then Some(0)
    else
      match IndexOfOne(val, vs[1..])
      case None => None
      case Some(k) => Some(k + 1)
  }

  /** list.index(1) finds the first rounded 1, and fails exactly when there is none. */
  lemma {:induction false} IndexOfOneFirst(val: Var -> real, vs: seq<Var>)
    ensures var r := IndexOfOne(val, vs);
            var rv := Rounded(val, vs);
            (r.Some? ==> rv[r.value] == 1 && forall m :: 0 <= m < r.value ==> rv[m] != 1) &&
            (r.None? <==> 1 !in rv)
  {
    var rv := Rounded(val, vs);
    if vs != [] {
      assert rv[0] == RoundHalfEven(val(vs[0]));
      if rv[0] != 1 {
        IndexOfOneFirst(val, vs[1..]);
        var rv' := Rounded(val, vs[1..]);
        assert rv[1..] == rv';
        assert forall x :: x in rv <==> x == rv[0] || x in rv';
        var r := IndexOfOne(val, vs[1..]);
        if r.Some? {
          forall m | 0 <= m < r.value + 1
            ensures rv[m] != 1
          {
            if m > 0 {
              assert rv[m] == rv'[m - 1];
            }
          }
        }
      }
    }
  }

  /** The number of values equal to 1. */
  function CountOnes(rv: seq<int>): nat
  {
    if rv == [] then 0 else (if rv[0] == 1 then 1 else 0) + CountOnes(rv[1..])
  }

  lemma {:induction false} CountOnesSnoc(rv: seq<int>, k: nat)
    requires k < |rv|
    ensures CountOnes(rv[..k + 1]) == CountOnes(rv[..k]) + (if rv[k] == 1 then 1 else 0)
    decreases k
  {
    if k > 0 {
      CountOnesSnoc(rv[1..], k - 1);
      assert rv[..k + 1][1..] == rv[1..][..k];
      assert rv[..k][1..] == rv[1..][..k - 1];
    } else {
      assert rv[..1][1..] == [];
    }
  }

  lemma {:induction false} CountOnesPrefix(rv: seq<int>, k: nat)
    requires k <= |rv|
    ensures CountOnes(rv[..k]) <= CountOnes(rv)
    decreases |rv| - k
  {
    if k < |rv| {
      CountOnesSnoc(rv, k);
      CountOnesPrefix(rv, k + 1);
    } else {
      assert rv[..k] == rv;
    }
  }

  /** The position of the (i+1)-th value equal to 1. */
  function NthOne(rv: seq<int>, i: nat): (j: nat)
    requires i < CountOnes(rv)
    ensures j < |rv| && rv[j] == 1 && CountOnes(rv[..j]) == i
  {
    if rv[0] == 1 && i == 0 then
      assert rv[..0] == [];
      0
    else
      var k := NthOne(rv[1..], if rv[0] == 1 then i - 1 else i);
      assert rv[..k + 1][1..] == rv[1..][..k];
      k + 1
  }

  /** A 1 preceded by exactly i ones is the (i+1)-th one. */
  lemma {:induction false} NthOneUnique(rv: seq<int>, i: nat, j: nat)
    requires j < |rv| && rv[j] == 1 && CountOnes(rv[..j]) == i
    ensures i < CountOnes(rv) && NthOne(rv, i) == j
    decreases j
  {
    CountOnesSnoc(rv, j);
    CountOnesPrefix(rv, j + 1);
    if j > 0 {
      assert rv[..j][1..] == rv[1..][..j - 1];
      var i' := if rv[0] == 1 then i - 1 else i;
      NthOneUnique(rv[1..], i', j - 1);
    } else {
      assert rv[..0] == [];
    }
  }

  /** Counting over a shorter prefix counts no more. */
  lemma CountOnesMonotone(rv: seq<int>, a: nat, b: nat)
    requires a <= |rv| && b <= |rv|
    ensures b <= a ==> CountOnes(rv[..b]) <= CountOnes(rv[..a])
  {
    if b <= a {
      CountOnesPrefix(rv[..a], b);
      assert rv[..a][..b] == rv[..b];
    }
  }

  /** Later buses of a line take later arcs: the positions of the ones grow with i. */
  lemma {:induction false} NthOneIncreasing(rv: seq<int>, i1: nat, i2: nat)
    requires i1 < i2 < CountOnes(rv)
    ensures NthOne(rv, i1) < NthOne(rv, i2)
  {
    var j1, j2 := NthOne(rv, i1), NthOne(rv, i2);
    CountOnesMonotone(rv, j1, j2);
  }

  /**
   * The counter/j scan of the i-th bus: j walks the rounded idle arcs and counter counts the
   * ones, stopping at the (i+1)-th one or at the end of the list.
   */
  method ScanIdleArcs(rv: seq<int>, i: nat) returns (found: bool, j: int)
    ensures found <==> i < CountOnes(rv)
    ensures found ==> 0 <= j < |rv| && j == NthOne(rv, i)
  {
    var counter := -1;
    j := -1;
    while counter < i && j < |rv| - 1
      invariant -1 <= j < |rv|
      invariant counter == CountOnes(rv[..j + 1]) - 1
      invariant counter <= i
      invariant counter == i ==> 0 <= j && rv[j] == 1
      decreases |rv| - j
    {
      j := j + 1;
      CountOnesSnoc(rv, j);
      if rv[j] == 1 {
        counter := counter + 1;
      }
    }
    found := !(counter < i);
    if found {
      CountOnesSnoc(rv, j);
      NthOneUnique(rv, i, j);
    } else {
      assert rv[..j + 1] == rv;
    }
  }

  // ----- one step of the walk -----

  /** The z variables of a leg's parent's options, named with the leg's id (`z_{first.id},{key}`). */
  function OptionZs(id: int, opts: seq<RouteOption>): (vs: seq<Var>)
    ensures |vs| == |opts|
  {
    seq(|opts|, k requires 0 <= k < |opts| => Z(id, opts[k].key))
  }

  /** The leg's parent has a chosen option (rounded z of 1, the first such) and the leg is one of its legs. */
  predicate LegChosen(val: Var -> real, parentOf: Leg -> Request, leg: Leg)
  {
    var parent := parentOf(leg);
    var chosen := IndexOfOne(val, OptionZs(leg.id, parent.options));
    chosen.Some? && leg in parent.options[chosen.value].legs
  }

  /** The value of the variable of an event's side, in clock minutes. */
  function EventMinutes(enc: Encoding, val: Var -> real, e: Event): real
    requires !e.IdleEvent?
  {
    val(BVar(e.first, e.PickUpEvent?)) + AddValue(enc, e.first, e.PickUpEvent?)
  }

  /**
   * One iteration of the walk at the leg event `next`: nothing for an unchosen leg; at a new
   * stop the current route stop is closed and a new one opened, arriving after the travel
   * time; at the same stop the current one gains the request and departs at the event's time.
   */
  function Visit(enc: Encoding, val: Var -> real, dur: (Stop, Stop) -> real, parentOf: Leg -> Request, bus: Bus,
                 curr: RouteStop, stops: seq<RouteStop>, next: Event): (RouteStop, seq<RouteStop>)
    requires !next.IdleEvent?
  {
    var leg := next.first;
    var parent := parentOf(leg);
    var pick := next.PickUpEvent?;
    if !LegChosen(val, parentOf, leg) then (curr, stops)
    else if Location(next) != curr.stop then
      var d := dur(curr.stop, Location(next));
      var s := RouteStop(Location(next), AddMinutes(curr.departTime, d), ConvertToTime(EventMinutes(enc, val, next)),
                         if pick then {parent} else {}, if pick then {} else {parent}, bus);
      (s, stops + [curr])
    else
      var c := if pick then curr.(pickUp := curr.pickUp + {parent}) else curr.(dropOff := curr.dropOff + {parent});
      (c.(departTime := ConvertToTime(EventMinutes(enc, val, next))), stops)
  }

  /**
   * The event after e: the first outbound arc with rounded value 1 (ValueError when there is
   * none, KeyError when e has no entry in the graph).
   */
  function NextEvent(g: Graph, val: Var -> real, e: Event): (r: Result<Event>)
    ensures r.Success? ==> e in g.edgeDict && r.value in g.edgeDict[e].outbound
  {
    if e !in g.edgeDict then Failure("KeyError: an event of the tour is not in the graph")
    else
      var outs := g.edgeDict[e].outbound;
      match IndexOfOne(val, ArcsOutOf(e, outs))
      case None => Failure("ValueError: no arc with value 1 out of an event on the tour")
      case Some(k) => Success(outs[k])
  }

  /** Another line's idle event has no first leg. */
  const ForeignIdle := "AttributeError: the tour reached the idle event of another line"

  /** More leg events than the graph has: the loop would not end. */
  const NoReturn := "the tour does not return to the idle event"

  /**
   * The events one tour visits from `next` until it is back at `idle`, each the first
   * one-valued arc out of the one before, with at most `fuel` of them. Another line's idle
   * event has no first leg: AttributeError.
   */
  function TourEvents(g: Graph, val: Var -> real, idle: Event, next: Event, fuel: nat): (r: Result<seq<Event>>)
    ensures r.Success? ==> |r.value| <= fuel && forall e :: e in r.value ==> !e.IdleEvent?
    decreases fuel
  {
    if next == idle then Success([])
    else if next.IdleEvent? then Failure(ForeignIdle)
    else if fuel == 0 then Failure(NoReturn)
    else
      match NextEvent(g, val, next)
      case Failure(err) => Failure(err)
      case Success(n) =>
        match TourEvents(g, val, idle, n, fuel - 1)
        case Failure(err) => Failure(err)
        case Success(es) => Success([next] + es)
  }

  /** The route stops after visiting the events in order. */
  function VisitAll(enc: Encoding, val: Var -> real, dur: (Stop, Stop) -> real, parentOf: Leg -> Request, bus: Bus,
                    curr: RouteStop, stops: seq<RouteStop>, es: seq<Event>): (RouteStop, seq<RouteStop>)
    requires forall e :: e in es ==> !e.IdleEvent?
    decreases |es|
  {
    if es == [] then (curr, stops)
    else
      var p := Visit(enc, val, dur, parentOf, bus, curr, stops, es[0]);
      VisitAll(enc, val, dur, parentOf, bus, p.0, p.1, es[1..])
  }

  /** The walk of one tour: the route stops after visiting its events, or the error that stops it. */
  function Walk(enc: Encoding, g: Graph, val: Var -> real, dur: (Stop, Stop) -> real, parentOf: Leg -> Request,
                bus: Bus, idle: Event, curr: RouteStop, stops: seq<RouteStop>, next: Event, fuel: nat)
    : Result<(RouteStop, seq<RouteStop>)>
  {
    match TourEvents(g, val, idle, next, fuel)
    case Failure(err) => Failure(err)
    case Success(es) => Success(VisitAll(enc, val, dur, parentOf, bus, curr, stops, es))
  }

  /** At the idle event the walk is over; at another line's idle event, or out of fuel, it fails. */
  lemma WalkEnds(enc: Encoding, g: Graph, val: Var -> real, dur: (Stop, Stop) -> real, parentOf: Leg -> Request,
                 bus: Bus, idle: Event, curr: RouteStop, stops: seq<RouteStop>, next: Event, fuel: nat)
    ensures next == idle ==> Walk(enc, g, val, dur, parentOf, bus, idle, curr, stops, next, fuel) == Success((curr, stops))
    ensures next != idle && next.IdleEvent? ==>
              Walk(enc, g, val, dur, parentOf, bus, idle, curr, stops, next, fuel) == Failure(ForeignIdle)
    ensures next != idle && !next.IdleEvent? && fuel == 0 ==>
              Walk(enc, g, val, dur, parentOf, bus, idle, curr, stops, next, fuel) == Failure(NoReturn)
  {
  }

  /**
   * One iteration of the loop: visiting `next` and moving to the event after it leaves the
   * outcome of the walk unchanged; when there is no event after it, the walk fails.
   */
  lemma WalkStep(enc: Encoding, g: Graph, val: Var -> real, dur: (Stop, Stop) -> real, parentOf: Leg -> Request,
                 bus: Bus, idle: Event, curr: RouteStop, stops: seq<RouteStop>, next: Event, fuel: nat)
    requires next != idle && !next.IdleEvent? && fuel > 0
    ensures var p := Visit(enc, val, dur, parentOf, bus, curr, stops, next);
            var n := NextEvent(g, val, next);
            var w := Walk(enc, g, val, dur, parentOf, bus, idle, curr, stops, next, fuel);
            (n.Failure? ==> w == Failure(n.error)) &&
            (n.Success? ==> w == Walk(enc, g, val, dur, parentOf, bus, idle, p.0, p.1, n.value, fuel - 1))
  {
    var n := NextEvent(g, val, next);
    if n.Success? {
      var t := TourEvents(g, val, idle, n.value, fuel - 1);
      if t.Success? {
        assert ([next] + t.value)[0] == next && ([next] + t.value)[1..] == t.value;
      }
    }
  }

  /**
   * A walk that runs out of fuel has taken `fuel` steps: the events it visited, starting at
   * `next`, are leg events with entries in the graph, each followed by its first one-valued arc.
   */
  lemma {:induction false} NoReturnVisits(g: Graph, val: Var -> real, idle: Event, next: Event, fuel: nat)
    returns (es: seq<Event>)
    requires TourEvents(g, val, idle, next, fuel) == Failure(NoReturn)
    ensures |es| == fuel && (fuel > 0 ==> es[0] == next)
    ensures forall i :: 0 <= i < |es| ==> es[i] != idle && !es[i].IdleEvent? && es[i] in g.edgeDict
    ensures forall i :: 0 <= i < |es| - 1 ==> NextEvent(g, val, es[i]) == Success(es[i + 1])
    decreases fuel
  {
    if fuel == 0 {
      es := [];
    } else {
      NoReturnStep(g, val, idle, next, fuel);
      var n := NextEvent(g, val, next);
      var rest := NoReturnVisits(g, val, idle, n.value, fuel - 1);
      es := [next] + rest;
      assert es[1..] == rest;
    }
  }

  /** A walk out of fuel stepped from a leg event with an entry to a walk out of one less fuel. */
  lemma NoReturnStep(g: Graph, val: Var -> real, idle: Event, next: Event, fuel: nat)
    requires fuel > 0 && TourEvents(g, val, idle, next, fuel) == Failure(NoReturn)
    ensures next != idle && !next.IdleEvent? && next in g.edgeDict && NextEvent(g, val, next).Success?
    ensures TourEvents(g, val, idle, NextEvent(g, val, next).value, fuel - 1) == Failure(NoReturn)
  {
  }

  /** The elements of a sequence without repeats are as many as its length. */
  lemma {:induction false} DistinctCount<T>(s: seq<T>)
    requires forall i, j :: 0 <= i < j < |s| ==> s[i] != s[j]
    ensures |(set x | x in s)| == |s|
  {
    if s != [] {
      DistinctCount(s[1..]);
      assert (set x | x in s) == (set x | x in s[1..]) + {s[0]};
      assert s[0] !in (set x | x in s[1..]);
    }
  }

  /** A subset is no larger. */
  lemma SubsetCount<T>(a: set<T>, b: set<T>)
    requires a <= b
    ensures |a| <= |b|
  {
    assert b == a + (b - a);
  }

  /**
   * The fuel |eventOrder| cuts off no tour the source decodes: on a graph whose key order lists
   * its events, a walk of the idle event's line that runs out of it has visited some leg event
   * twice. Each step follows the first one-valued arc, so from there the source's loop cycles
   * and never reaches the idle event.
   */
  lemma NoReturnRepeats(g: Graph, val: Var -> real, idle: Event, next: Event) returns (es: seq<Event>)
    requires KeysListed(g) && idle in g.edgeDict
    requires TourEvents(g, val, idle, next, |g.eventOrder|) == Failure(NoReturn)
    ensures |es| == |g.eventOrder| > 0 && es[0] == next
    ensures forall i :: 0 <= i < |es| - 1 ==> NextEvent(g, val, es[i]) == Success(es[i + 1])
    ensures exists i, j :: 0 <= i < j < |es| && es[i] == es[j]
  {
    assert idle in g.eventOrder;
    es := NoReturnVisits(g, val, idle, next, |g.eventOrder|);
    if forall i, j :: 0 <= i < j < |es| ==> es[i] != es[j] {
      DistinctCount(es);
      DistinctCount(g.eventOrder);
      assert (set x | x in es) <= (set x | x in g.eventOrder) - {idle};
      SubsetCount(set x | x in es, (set x | x in g.eventOrder) - {idle});
      assert false;
    }
  }

  // ----- the route of one bus -----

  /** The search for a line's idle event among the graph's keys finds none. */
  const NoIdleEvent := "StopIteration: the event graph has no idle event of the line"

  /** The arc a tour starts on leads to an idle event, which has no leg to read the start time from. */
  const IdleStart := "AttributeError: the tour starts at an idle event"

  /** The rounded values of the arcs out of a line's idle event. */
  function IdleValues(g: Graph, val: Var -> real, line: Line): seq<int>
    requires IdleEvent(line) in g.edgeDict
  {
    Rounded(val, ArcsOutOf(IdleEvent(line), g.edgeDict[IdleEvent(line)].outbound))
  }

  /** A bus with no tour of its own stays at the depot for the line's whole service. */
  function ParkedStop(line: Line, bus: Bus): RouteStop
  {
    RouteStop(line.depot, bus.line.startTime, bus.line.endTime, {}, {}, bus)
  }

  /** The depot stop a tour starts from, left in time to reach the first event `next`. */
  function StartStop(enc: Encoding, val: Var -> real, dur: (Stop, Stop) -> real, transfer: real,
                     line: Line, bus: Bus, next: Event): RouteStop
    requires !next.IdleEvent?
  {
    var d := dur(line.depot, Location(next));
    RouteStop(line.depot, bus.line.startTime,
              ConvertToTime(val(BStart(next.first.splitId)) - transfer - d + AddValue(enc, next.first, true)),
              {}, {}, bus)
  }

  /** The depot stop a tour ends at, reached from the last route stop `c`, held until the line's end. */
  function HomeStop(dur: (Stop, Stop) -> real, line: Line, bus: Bus, c: RouteStop): RouteStop
  {
    RouteStop(line.depot, AddMinutes(c.departTime, dur(c.stop, line.depot)), bus.line.endTime, {}, {}, bus)
  }

  /** The route stops of a walk so far: the closed ones, then the current one. */
  function Trail(p: (RouteStop, seq<RouteStop>)): seq<RouteStop>
  {
    p.1 + [p.0]
  }

  /**
   * The route of the i-th bus of a line: parked, or the tour from its idle arc: the depot
   * start stop, the walk, and the final depot stop.
   */
  function BusRoute(enc: Encoding, g: Graph, val: Var -> real, dur: (Stop, Stop) -> real, parentOf: Leg -> Request,
                    transfer: real, line: Line, i: nat, bus: Bus): Result<Route>
  {
    var idle := IdleEvent(line);
    if idle !in g.edgeDict then Failure(NoIdleEvent)
    else
    var rv := IdleValues(g, val, line);
    if CountOnes(rv) <= i then Success(Route(bus, [ParkedStop(line, bus)]))
    else
      var next := g.edgeDict[idle].outbound[NthOne(rv, i)];
      if next.IdleEvent? then Failure(IdleStart)
      else match Walk(enc, g, val, dur, parentOf, bus, idle, StartStop(enc, val, dur, transfer, line, bus, next), [], next, |g.eventOrder|)
      case Failure(err) => Failure(err)
      case Success(p) => Success(Route(bus, Trail(p) + [HomeStop(dur, line, bus, p.0)]))
  }

  /** The route stops of a sequence are at different stops from their successors. */
  predicate AdjacentApart(xs: seq<RouteStop>)
  {
    forall k :: 0 <= k < |xs| - 1 ==> xs[k].stop != xs[k + 1].stop
  }

  /** Every request boarding or alighting at a route stop has a leg whose option is chosen. */
  ghost predicate ServesChosen(val: Var -> real, parentOf: Leg -> Request, xs: seq<RouteStop>)
  {
    forall k, r :: 0 <= k < |xs| && (r in xs[k].pickUp || r in xs[k].dropOff) ==>
      exists leg :: parentOf(leg) == r && LegChosen(val, parentOf, leg)
  }

  /** The first route stop is at the depot and arrives at the line's start. */
  predicate StartsAtDepot(xs: seq<RouteStop>, line: Line, bus: Bus)
  {
    |xs| > 0 && xs[0].stop == line.depot && xs[0].arrivTime == bus.line.startTime
  }

  /** The route stops so far start at the depot and are apart from their successors. */
  predicate Shaped(line: Line, bus: Bus, xs: seq<RouteStop>)
  {
    AdjacentApart(xs) && StartsAtDepot(xs, line, bus)
  }

  /** Opening a new route stop at a different stop keeps the shape. */
  lemma VisitNewStop(line: Line, bus: Bus, xs: seq<RouteStop>, c: RouteStop)
    requires Shaped(line, bus, xs) && xs[|xs| - 1].stop != c.stop
    ensures Shaped(line, bus, xs + [c])
  {
  }

  /** Updating the current route stop in place keeps the shape when it stays at its stop. */
  lemma VisitSameStop(line: Line, bus: Bus, s: seq<RouteStop>, curr: RouteStop, c: RouteStop)
    requires Shaped(line, bus, s + [curr])
    requires c.stop == curr.stop && c.arrivTime == curr.arrivTime
    ensures Shaped(line, bus, s + [c])
  {
    var xs, ys := s + [curr], s + [c];
    forall k | 0 <= k < |ys| - 1
      ensures ys[k].stop != ys[k + 1].stop
    {
      assert ys[k].stop == xs[k].stop && ys[k + 1].stop == xs[k + 1].stop;
    }
    assert ys[0].stop == xs[0].stop && ys[0].arrivTime == xs[0].arrivTime;
  }

  lemma VisitKeeps(enc: Encoding, val: Var -> real, dur: (Stop, Stop) -> real, parentOf: Leg -> Request, bus: Bus,
                   line: Line, curr: RouteStop, stops: seq<RouteStop>, next: Event)
    requires !next.IdleEvent?
    requires Shaped(line, bus, stops + [curr])
    ensures Shaped(line, bus, Trail(Visit(enc, val, dur, parentOf, bus, curr, stops, next)))
  {
    var p := Visit(enc, val, dur, parentOf, bus, curr, stops, next);
    if LegChosen(val, parentOf, next.first) {
      if Location(next) != curr.stop {
        assert (stops + [curr])[|stops|] == curr;
        VisitNewStop(line, bus, stops + [curr], p.0);
      } else {
        VisitSameStop(line, bus, stops, curr, p.0);
      }
    }
  }

  /** Visiting an event keeps every served request tied to a chosen leg. */
  lemma VisitServes(enc: Encoding, val: Var -> real, dur: (Stop, Stop) -> real, parentOf: Leg -> Request, bus: Bus,
                    curr: RouteStop, stops: seq<RouteStop>, next: Event)
    requires !next.IdleEvent?
    requires ServesChosen(val, parentOf, stops + [curr])
    ensures ServesChosen(val, parentOf, Trail(Visit(enc, val, dur, parentOf, bus, curr, stops, next)))
  {
    var p := Visit(enc, val, dur, parentOf, bus, curr, stops, next);
    var leg := next.first;
    var xs, ys := stops + [curr], Trail(p);
    if LegChosen(val, parentOf, leg) {
      forall k, r | 0 <= k < |ys| && (r in ys[k].pickUp || r in ys[k].dropOff)
        ensures exists leg :: parentOf(leg) == r && LegChosen(val, parentOf, leg)
      {
        if k < |xs| && ys[k] == xs[k] {
        } else if r != parentOf(leg) {
          assert k == |stops| && ys[k].pickUp + ys[k].dropOff <= curr.pickUp + curr.dropOff + {parentOf(leg)};
          assert xs[k] == curr;
        }
      }
    }
  }

  /** Visiting events one after another keeps the shape. */
  lemma {:induction false} VisitAllKeeps(enc: Encoding, val: Var -> real, dur: (Stop, Stop) -> real,
                                         parentOf: Leg -> Request, bus: Bus, line: Line,
                                         curr: RouteStop, stops: seq<RouteStop>, es: seq<Event>)
    requires forall e :: e in es ==> !e.IdleEvent?
    requires Shaped(line, bus, stops + [curr])
    ensures Shaped(line, bus, Trail(VisitAll(enc, val, dur, parentOf, bus, curr, stops, es)))
    decreases |es|
  {
    if es != [] {
      var p := Visit(enc, val, dur, parentOf, bus, curr, stops, es[0]);
      VisitKeeps(enc, val, dur, parentOf, bus, line, curr, stops, es[0]);
      VisitAllKeeps(enc, val, dur, parentOf, bus, line, p.0, p.1, es[1..]);
    }
  }

  /** Visiting events one after another serves chosen legs only. */
  lemma {:induction false} VisitAllServes(enc: Encoding, val: Var -> real, dur: (Stop, Stop) -> real,
                                          parentOf: Leg -> Request, bus: Bus,
                                          curr: RouteStop, stops: seq<RouteStop>, es: seq<Event>)
    requires forall e :: e in es ==> !e.IdleEvent?
    requires ServesChosen(val, parentOf, stops + [curr])
    ensures ServesChosen(val, parentOf, Trail(VisitAll(enc, val, dur, parentOf, bus, curr, stops, es)))
    decreases |es|
  {
    if es != [] {
      var p := Visit(enc, val, dur, parentOf, bus, curr, stops, es[0]);
      VisitServes(enc, val, dur, parentOf, bus, curr, stops, es[0]);
      VisitAllServes(enc, val, dur, parentOf, bus, p.0, p.1, es[1..]);
    }
  }

  /**
   * A decoded route starts at the depot at the line's start and ends at the depot at the
   * line's end; every route stop before the final one is at a different stop from the next,
   * and every request it serves has a leg of its chosen option.
   */
  lemma BusRouteShape(enc: Encoding, g: Graph, val: Var -> real, dur: (Stop, Stop) -> real, parentOf: Leg -> Request,
                      transfer: real, line: Line, i: nat, bus: Bus)
    ensures var r := BusRoute(enc, g, val, dur, parentOf, transfer, line, i, bus);
            r.Success? ==>
              var xs := r.value.stopList;
              r.value.bus == bus && StartsAtDepot(xs, line, bus) &&
              xs[|xs| - 1].stop == line.depot && xs[|xs| - 1].departTime == bus.line.endTime &&
              AdjacentApart(xs[..|xs| - 1]) && ServesChosen(val, parentOf, xs)
  {
    var idle := IdleEvent(line);
    if idle in g.edgeDict && CountOnes(IdleValues(g, val, line)) > i
       && !g.edgeDict[idle].outbound[NthOne(IdleValues(g, val, line), i)].IdleEvent? {
      var next := g.edgeDict[idle].outbound[NthOne(IdleValues(g, val, line), i)];
      var start := StartStop(enc, val, dur, transfer, line, bus, next);
      assert [] + [start] == [start];
      var t := TourEvents(g, val, idle, next, |g.eventOrder|);
      var w := Walk(enc, g, val, dur, parentOf, bus, idle, start, [], next, |g.eventOrder|);
      if t.Success? {
        VisitAllKeeps(enc, val, dur, parentOf, bus, line, start, [], t.value);
        VisitAllServes(enc, val, dur, parentOf, bus, start, [], t.value);
        var xs := Trail(w.value) + [HomeStop(dur, line, bus, w.value.0)];
        assert xs[..|xs| - 1] == Trail(w.value);
        forall k, r | 0 <= k < |xs| && (r in xs[k].pickUp || r in xs[k].dropOff)
          ensures exists leg :: parentOf(leg) == r && LegChosen(val, parentOf, leg)
        {
          assert xs[k] == Trail(w.value)[k];
        }
      }
    }
  }

  /** A bus gets the parked route exactly when no one-valued idle arc is left for it. */
  lemma ParkedWithoutArc(enc: Encoding, g: Graph, val: Var -> real, dur: (Stop, Stop) -> real, parentOf: Leg -> Request,
                         transfer: real, line: Line, i: nat, bus: Bus)
    requires IdleEvent(line) in g.edgeDict
    ensures CountOnes(IdleValues(g, val, line)) <= i <==>
              BusRoute(enc, g, val, dur, parentOf, transfer, line, i, bus) == Success(Route(bus, [ParkedStop(line, bus)]))
  {
    var idle := IdleEvent(line);
    var rv := IdleValues(g, val, line);
    var next := if CountOnes(rv) > i then g.edgeDict[idle].outbound[NthOne(rv, i)] else idle;
    if CountOnes(rv) > i && !next.IdleEvent? {
      var w := Walk(enc, g, val, dur, parentOf, bus, idle, StartStop(enc, val, dur, transfer, line, bus, next), [], next, |g.eventOrder|);
      if w.Success? {
        assert |Trail(w.value) + [HomeStop(dur, line, bus, w.value.0)]| >= 2;
      }
    }
  }

  // ----- the decoding loops -----

  /**
   * One pass of the walk loop's body: at another line's idle event or out of fuel the walk
   * stops with its error, otherwise `next` is visited and the walk moves to the event after it.
   */
  method WalkOnce(enc: Encoding, g: Graph, val: Var -> real, dur: (Stop, Stop) -> real, parentOf: Leg -> Request,
                  bus: Bus, idle: Event, curr: RouteStop, stops: seq<RouteStop>, next: Event, fuel: nat)
    returns (stop: bool, r: Result<(RouteStop, seq<RouteStop>)>,
             curr': RouteStop, stops': seq<RouteStop>, next': Event, fuel': nat)
    requires next != idle
    ensures stop ==> r == Walk(enc, g, val, dur, parentOf, bus, idle, curr, stops, next, fuel)
    ensures !stop ==> fuel' < fuel
    ensures !stop ==> Walk(enc, g, val, dur, parentOf, bus, idle, curr', stops', next', fuel') ==
                      Walk(enc, g, val, dur, parentOf, bus, idle, curr, stops, next, fuel)
  {
    curr', stops', next', fuel' := curr, stops, next, fuel;
    WalkEnds(enc, g, val, dur, parentOf, bus, idle, curr, stops, next, fuel);
    if next.IdleEvent? {
      return true, Failure(ForeignIdle), curr', stops', next', fuel';
    }
    if fuel == 0 {
      return true, Failure(NoReturn), curr', stops', next', fuel';
    }
    WalkStep(enc, g, val, dur, parentOf, bus, idle, curr, stops, next, fuel);
    var n := NextEvent(g, val, next);
    if n.Failure? {
      return true, Failure(n.error), curr', stops', next', fuel';
    }
    var p := Visit(enc, val, dur, parentOf, bus, curr, stops, next);
    stop, r := false, Failure("");
    curr', stops', next', fuel' := p.0, p.1, n.value, fuel - 1;
  }

  /** The walk loop: from `next`, visit events along the one-valued arcs until the idle event. */
  method WalkTour(enc: Encoding, g: Graph, val: Var -> real, dur: (Stop, Stop) -> real, parentOf: Leg -> Request,
                  bus: Bus, idle: Event, start: RouteStop, first: Event, fuel0: nat)
    returns (r: Result<(RouteStop, seq<RouteStop>)>)
    ensures r == Walk(enc, g, val, dur, parentOf, bus, idle, start, [], first, fuel0)
  {
    var curr, stops, next, fuel := start, [], first, fuel0;
    while next != idle
      invariant Walk(enc, g, val, dur, parentOf, bus, idle, curr, stops, next, fuel) ==
                Walk(enc, g, val, dur, parentOf, bus, idle, start, [], first, fuel0)
      decreases fuel
    {
      var stop;
      stop, r, curr, stops, next, fuel := WalkOnce(enc, g, val, dur, parentOf, bus, idle, curr, stops, next, fuel);
      if stop {
        return;
      }
    }
    WalkEnds(enc, g, val, dur, parentOf, bus, idle, curr, stops, next, fuel);
    r := Success((curr, stops));
  }

  /**
   * The route of the i-th bus of a line, as the loop computes it: the counter/j scan, then the
   * walk, then the final depot stop.
   */
  method DecodeBus(enc: Encoding, g: Graph, val: Var -> real, dur: (Stop, Stop) -> real, parentOf: Leg -> Request,
                   transfer: real, line: Line, i: nat, bus: Bus) returns (r: Result<Route>)
    ensures r == BusRoute(enc, g, val, dur, parentOf, transfer, line, i, bus)
  {
    var idle := IdleEvent(line);
    if idle !in g.edgeDict {
      return Failure(NoIdleEvent);
    }
    var found, j := ScanIdleArcs(IdleValues(g, val, line), i);
    if !found {
      return Success(Route(bus, [ParkedStop(line, bus)]));
    }
    var next := g.edgeDict[idle].outbound[j];
    if next.IdleEvent? {
      return Failure(IdleStart);
    }
    var w := WalkTour(enc, g, val, dur, parentOf, bus, idle, StartStop(enc, val, dur, transfer, line, bus, next), next,
                      |g.eventOrder|);
    if w.Failure? {
      return Failure(w.error);
    }
    r := Success(Route(bus, Trail(w.value) + [HomeStop(dur, line, bus, w.value.0)]));
  }

  /** The buses of a line, in the order of the bus list. */
  function BusesOf(line: Line, buses: seq<Bus>): (bs: seq<Bus>)
    ensures forall b :: b in bs <==> b in buses && b.line == line
  {
    if buses == [] then []
    else BusesOf(line, buses[..|buses| - 1]) + (if buses[|buses| - 1].line == line then [buses[|buses| - 1]] else [])
  }

  /**
   * The routes of a line's buses from the i-th on, after the routes `acc` of the ones before;
   * the k-th bus is decoded as the line's k-th, and the first error stops it.
   */
  function LineRoutesFrom(enc: Encoding, g: Graph, val: Var -> real, dur: (Stop, Stop) -> real, parentOf: Leg -> Request,
                          transfer: real, line: Line, bs: seq<Bus>, i: nat, acc: seq<Route>): Result<seq<Route>>
    requires i <= |bs|
    decreases |bs| - i
  {
    if i == |bs| then Success(acc)
    else
      match BusRoute(enc, g, val, dur, parentOf, transfer, line, i, bs[i])
      case Failure(err) => Failure(err)
      case Success(rt) => LineRoutesFrom(enc, g, val, dur, parentOf, transfer, line, bs, i + 1, acc + [rt])
  }

  /**
   * convert_to_plan from the k-th line on, after the routes `acc` of the lines before: each
   * line's buses in turn; the first error stops it.
   */
  function PlanFrom(enc: Encoding, g: Graph, val: Var -> real, dur: (Stop, Stop) -> real, parentOf: Leg -> Request,
                    transfer: real, lines: seq<Line>, buses: seq<Bus>, k: nat, acc: seq<Route>): Result<seq<Route>>
    requires k <= |lines|
    decreases |lines| - k
  {
    if k == |lines| then Success(acc)
    else
      match LineRoutesFrom(enc, g, val, dur, parentOf, transfer, lines[k], BusesOf(lines[k], buses), 0, [])
      case Failure(err) => Failure(err)
      case Success(rs) => PlanFrom(enc, g, val, dur, parentOf, transfer, lines, buses, k + 1, acc + rs)
  }

  /** The inner loop: the i-th bus of the line gets the line's i-th tour. */
  method DecodeLine(enc: Encoding, g: Graph, val: Var -> real, dur: (Stop, Stop) -> real, parentOf: Leg -> Request,
                    transfer: real, line: Line, buses: seq<Bus>) returns (r: Result<seq<Route>>)
    ensures r == LineRoutesFrom(enc, g, val, dur, parentOf, transfer, line, BusesOf(line, buses), 0, [])
  {
    var bs := BusesOf(line, buses);
    var rs: seq<Route> := [];
    for i := 0 to |bs|
      invariant LineRoutesFrom(enc, g, val, dur, parentOf, transfer, line, bs, i, rs) ==
                LineRoutesFrom(enc, g, val, dur, parentOf, transfer, line, bs, 0, [])
    {
      var rt := DecodeBus(enc, g, val, dur, parentOf, transfer, line, i, bs[i]);
      if rt.Failure? {
        return Failure(rt.error);
      }
      rs := rs + [rt.value];
    }
    r := Success(rs);
  }

  /**
   * convert_to_plan: the lines of the fleet in some iteration order, and for each the routes
   * of its buses.
   */
  method ConvertToPlan(enc: Encoding, g: Graph, val: Var -> real, dur: (Stop, Stop) -> real, parentOf: Leg -> Request,
                       transfer: real, buses: seq<Bus>) returns (lines: seq<Line>, r: Result<seq<Route>>)
    ensures (set l | l in lines) == LinesOf(buses) && Distinct(lines)
    ensures r == PlanFrom(enc, g, val, dur, parentOf, transfer, lines, buses, 0, [])
  {
    lines := IterationOrder(LinesOf(buses));
    var all: seq<Route> := [];
    for k := 0 to |lines|
      invariant PlanFrom(enc, g, val, dur, parentOf, transfer, lines, buses, k, all) ==
                PlanFrom(enc, g, val, dur, parentOf, transfer, lines, buses, 0, [])
    {
      var rs := DecodeLine(enc, g, val, dur, parentOf, transfer, lines[k], buses);
      if rs.Failure? {
        return lines, Failure(rs.error);
      }
      all := all + rs.value;
    }
    r := Success(all);
  }

  // ----- every bus gets exactly one route -----

  /** The buses of some routes, in order. */
  function RouteBuses(rs: seq<Route>): (bs: seq<Bus>)
    ensures |bs| == |rs| && forall k :: 0 <= k < |rs| ==> bs[k] == rs[k].bus
  {
    seq(|rs|, k requires 0 <= k < |rs| => rs[k].bus)
  }

  /** The buses of routes put together are the buses of each part, put together. */
  lemma RouteBusesAppend(a: seq<Route>, b: seq<Route>)
    ensures RouteBuses(a + b) == RouteBuses(a) + RouteBuses(b)
  {
    var l, r := RouteBuses(a + b), RouteBuses(a) + RouteBuses(b);
    forall k | 0 <= k < |l|
      ensures l[k] == r[k]
    {
      assert (a + b)[k] == if k < |a| then a[k] else b[k - |a|];
    }
  }

  /** One more route, of the i-th bus, moves the i-th bus from the buses to come to the buses so far. */
  lemma RouteBusesStep(acc: seq<Route>, rt: Route, bs: seq<Bus>, i: nat)
    requires i < |bs| && rt.bus == bs[i]
    ensures RouteBuses(acc + [rt]) + bs[i + 1..] == RouteBuses(acc) + bs[i..]
  {
    RouteBusesAppend(acc, [rt]);
    assert bs[i..] == [bs[i]] + bs[i + 1..];
  }

  /** The buses of the lines, line after line. */
  function LinesBuses(lines: seq<Line>, buses: seq<Bus>): seq<Bus>
  {
    if lines == [] then [] else BusesOf(lines[0], buses) + LinesBuses(lines[1..], buses)
  }

  /** The route of a bus is that bus's. */
  lemma BusRouteBus(enc: Encoding, g: Graph, val: Var -> real, dur: (Stop, Stop) -> real, parentOf: Leg -> Request,
                    transfer: real, line: Line, i: nat, bus: Bus)
    ensures var r := BusRoute(enc, g, val, dur, parentOf, transfer, line, i, bus);
            r.Success? ==> r.value.bus == bus
  {
  }

  /** Decoding a line gives one route per bus, in the buses' order. */
  lemma {:induction false} LineRoutesPerBus(enc: Encoding, g: Graph, val: Var -> real, dur: (Stop, Stop) -> real,
                                            parentOf: Leg -> Request, transfer: real, line: Line, bs: seq<Bus>,
                                            i: nat, acc: seq<Route>)
    requires i <= |bs|
    ensures var r := LineRoutesFrom(enc, g, val, dur, parentOf, transfer, line, bs, i, acc);
            r.Success? ==> RouteBuses(r.value) == RouteBuses(acc) + bs[i..]
    decreases |bs| - i
  {
    if i < |bs| {
      var rt := BusRoute(enc, g, val, dur, parentOf, transfer, line, i, bs[i]);
      if rt.Success? {
        BusRouteBus(enc, g, val, dur, parentOf, transfer, line, i, bs[i]);
        LineRoutesPerBus(enc, g, val, dur, parentOf, transfer, line, bs, i + 1, acc + [rt.value]);
        RouteBusesStep(acc, rt.value, bs, i);
      }
    }
  }

  /** After a line decodes, the plan goes on with the next line. */
  lemma PlanFromStep(enc: Encoding, g: Graph, val: Var -> real, dur: (Stop, Stop) -> real,
                     parentOf: Leg -> Request, transfer: real, lines: seq<Line>, buses: seq<Bus>,
                     k: nat, acc: seq<Route>)
    requires k < |lines|
    ensures var rs := LineRoutesFrom(enc, g, val, dur, parentOf, transfer, lines[k], BusesOf(lines[k], buses), 0, []);
            rs.Success? ==>
              PlanFrom(enc, g, val, dur, parentOf, transfer, lines, buses, k, acc) ==
              PlanFrom(enc, g, val, dur, parentOf, transfer, lines, buses, k + 1, acc + rs.value)
  {
  }

  /** Decoding the lines gives one route per bus of those lines, line after line. */
  lemma {:induction false} PlanPerBus(enc: Encoding, g: Graph, val: Var -> real, dur: (Stop, Stop) -> real,
                                      parentOf: Leg -> Request, transfer: real, lines: seq<Line>, buses: seq<Bus>,
                                      k: nat, acc: seq<Route>)
    requires k <= |lines|
    ensures var r := PlanFrom(enc, g, val, dur, parentOf, transfer, lines, buses, k, acc);
            r.Success? ==> RouteBuses(r.value) == RouteBuses(acc) + LinesBuses(lines[k..], buses)
    decreases |lines| - k
  {
    if k == |lines| {
      assert lines[k..] == [];
    } else {
      var bs := BusesOf(lines[k], buses);
      var rs := LineRoutesFrom(enc, g, val, dur, parentOf, transfer, lines[k], bs, 0, []);
      if rs.Success? {
        LineRoutesPerBus(enc, g, val, dur, parentOf, transfer, lines[k], bs, 0, []);
        PlanPerBus(enc, g, val, dur, parentOf, transfer, lines, buses, k + 1, acc + rs.value);
        var r := PlanFrom(enc, g, val, dur, parentOf, transfer, lines, buses, k, acc);
        PlanFromStep(enc, g, val, dur, parentOf, transfer, lines, buses, k, acc);
        assert RouteBuses(rs.value) == bs by {
          assert RouteBuses([]) == [] && bs[0..] == bs;
        }
        assert lines[k..][0] == lines[k] && lines[k..][1..] == lines[k + 1..];
        if r.Success? {
          RouteBusesRegroup(acc, rs.value, r.value, LinesBuses(lines[k + 1..], buses));
        }
      }
    }
  }

  /** Routes after `acc` for the buses `RouteBuses(rs)`, then the `later` ones, regrouped. */
  lemma RouteBusesRegroup(acc: seq<Route>, rs: seq<Route>, all: seq<Route>, later: seq<Bus>)
    requires RouteBuses(all) == RouteBuses(acc + rs) + later
    ensures RouteBuses(all) == RouteBuses(acc) + (RouteBuses(rs) + later)
  {
    RouteBusesAppend(acc, rs);
    assert (RouteBuses(acc) + RouteBuses(rs)) + later == RouteBuses(acc) + (RouteBuses(rs) + later);
  }

  /** One more bus lands once among the buses of distinct lines when its line is one of them. */
  lemma {:induction false} LinesBusesSnoc(lines: seq<Line>, buses: seq<Bus>, b: Bus)
    requires Distinct(lines)
    ensures multiset(LinesBuses(lines, buses + [b])) ==
            multiset(LinesBuses(lines, buses)) + (if b.line in lines then multiset{b} else multiset{})
  {
    if lines != [] {
      var first, rest := lines[0], lines[1..];
      DistinctTail(lines);
      LinesBusesSnoc(rest, buses, b);
      assert (buses + [b])[..|buses|] == buses;
      assert BusesOf(first, buses + [b]) == BusesOf(first, buses) + (if b.line == first then [b] else []);
      assert b.line in lines <==> b.line == first || b.line in rest;
    }
  }

  /** The rest of a sequence without repeats has none and lacks the first element. */
  lemma DistinctTail(lines: seq<Line>)
    requires Distinct(lines) && lines != []
    ensures Distinct(lines[1..]) && lines[0] !in lines[1..]
  {
    var rest := lines[1..];
    forall i, j | 0 <= i < j < |rest|
      ensures rest[i] != rest[j]
    {
      assert rest[i] == lines[i + 1] && rest[j] == lines[j + 1];
    }
    forall i | 0 <= i < |rest|
      ensures rest[i] != lines[0]
    {
      assert rest[i] == lines[i + 1];
    }
  }

  /** The buses of distinct lines that cover the fleet are the fleet, each bus once. */
  lemma {:induction false} LinesBusesPermutation(lines: seq<Line>, buses: seq<Bus>)
    requires Distinct(lines) && forall b :: b in buses ==> b.line in lines
    ensures multiset(LinesBuses(lines, buses)) == multiset(buses)
  {
    if buses == [] {
      LinesBusesNone(lines);
    } else {
      var init, b := buses[..|buses| - 1], buses[|buses| - 1];
      assert buses == init + [b];
      LinesBusesPermutation(lines, init);
      LinesBusesSnoc(lines, init, b);
    }
  }

  /** Lines of no buses have no buses. */
  lemma {:induction false} LinesBusesNone(lines: seq<Line>)
    ensures LinesBuses(lines, []) == []
  {
    if lines != [] {
      LinesBusesNone(lines[1..]);
    }
  }

  /** A successful convert_to_plan gives every bus of the fleet exactly one route. */
  lemma {:induction false} PlanCoversFleet(enc: Encoding, g: Graph, val: Var -> real, dur: (Stop, Stop) -> real,
                        parentOf: Leg -> Request, transfer: real, lines: seq<Line>, buses: seq<Bus>)
    requires (set l | l in lines) == LinesOf(buses) && Distinct(lines)
    ensures var r := PlanFrom(enc, g, val, dur, parentOf, transfer, lines, buses, 0, []);
            r.Success? ==> multiset(RouteBuses(r.value)) == multiset(buses)
  {
    PlanPerBus(enc, g, val, dur, parentOf, transfer, lines, buses, 0, []);
    assert lines[0..] == lines;
    forall b | b in buses
      ensures b.line in lines
    {
      assert b.line in LinesOf(buses);
    }
    LinesBusesPermutation(lines, buses);
  }
}
