/**
 * The plan executor: replays the route stops of a plan and keeps the books on where every bus
 * is, who rides which bus, who waits at a transfer stop, and when riders actually start and end
 * their trips. The books are given as a value (`Books`) with one function per step; the class
 * `Executor` keeps them in its fields and its methods are proved against those functions.
 */
module Executor {
  import opened Wrappers
  import opened Timer
  import opened Network
  import opened Helper
  import opened Sorting

  /**
   * The executor's dictionaries: the transfer stop each waiting rider is at, the riders of
   * each bus, where each bus is, and the actual start and end times recorded for riders.
   */
  datatype Books = Books(userLocations: map<Request, Stop>, passengers: map<Bus, set<Request>>,
                         busLocations: map<Bus, Stop>,
                         actStart: map<Request, TimeImpl>, actEnd: map<Request, TimeImpl>)

  /** The books of a fresh executor: every bus at its depot and empty, nobody waiting. */
  function InitialBooks(buses: seq<Bus>): (b: Books)
    ensures forall x :: x in b.passengers <==> x in buses
    ensures forall x :: x in b.busLocations <==> x in buses
    ensures forall x :: x in buses ==> b.passengers[x] == {} && b.busLocations[x] == x.depot
    ensures b.userLocations == map[] && b.actStart == map[] && b.actEnd == map[]
  {
    Books(map[], map x | x in buses :: {}, map x | x in buses :: x.depot, map[], map[])
  }

  // ----- one route stop -----

  /** The alighted riders `gone` of `rs` not at their trip's end, waiting at its stop. */
  function Waiting(gone: set<Request>, rs: RouteStop): map<Request, Stop>
  {
    map u | u in gone && rs.stop != u.dropOff :: rs.stop
  }

  /** The alighted riders `gone` of `rs` at their trip's end, with its arrival. */
  function Arrived(gone: set<Request>, rs: RouteStop): map<Request, TimeImpl>
  {
    map u | u in gone && rs.stop == u.dropOff :: rs.arrivTime
  }

  /** The boarded riders `gone` of `w` at their trip's start, with its departure. */
  function Started(gone: set<Request>, w: RouteStop): map<Request, TimeImpl>
  {
    map u | u in gone && w.stop == u.pickUp :: w.departTime
  }

  /**
   * A bus arriving at a route stop: the bus is there now; its riders alighting there leave it;
   * one who is not at the end of the trip waits at that stop, one who is gets the arrival as
   * actual end time.
   */
  function Arrive(b: Books, rs: RouteStop): (r: Books)
    requires rs.bus in b.passengers
    ensures r.passengers.Keys == b.passengers.Keys
    ensures r.passengers[rs.bus] == b.passengers[rs.bus] - rs.dropOff
    ensures forall x :: x in b.passengers && x != rs.bus ==> r.passengers[x] == b.passengers[x]
    ensures r.busLocations == b.busLocations[rs.bus := rs.stop]
    ensures forall u :: u in rs.dropOff && rs.stop != u.dropOff ==>
              u in r.userLocations && r.userLocations[u] == rs.stop
    ensures forall u :: u in rs.dropOff && rs.stop == u.dropOff ==>
              u in r.actEnd && r.actEnd[u] == rs.arrivTime
    ensures forall u :: u !in rs.dropOff ==>
              (u in r.userLocations <==> u in b.userLocations) && (u in r.actEnd <==> u in b.actEnd)
    ensures forall u :: u !in rs.dropOff && u in b.userLocations ==> r.userLocations[u] == b.userLocations[u]
    ensures forall u :: u !in rs.dropOff && u in b.actEnd ==> r.actEnd[u] == b.actEnd[u]
    ensures r.actStart == b.actStart
  {
    Books(b.userLocations + Waiting(rs.dropOff, rs),
          b.passengers[rs.bus := b.passengers[rs.bus] - rs.dropOff],
          b.busLocations[rs.bus := rs.stop],
          b.actStart,
          b.actEnd + Arrived(rs.dropOff, rs))
  }

  /**
   * The riders boarding at a route stop board its bus and stop waiting; one boarding at the
   * start of the trip gets the departure as actual start time.
   */
  function Board(b: Books, w: RouteStop): (r: Books)
    requires w.bus in b.passengers
    ensures r.passengers.Keys == b.passengers.Keys
    ensures r.passengers[w.bus] == b.passengers[w.bus] + w.pickUp
    ensures forall x :: x in b.passengers && x != w.bus ==> r.passengers[x] == b.passengers[x]
    ensures r.userLocations.Keys == b.userLocations.Keys - w.pickUp
    ensures forall u :: u in r.userLocations ==> r.userLocations[u] == b.userLocations[u]
    ensures forall u :: u in w.pickUp && w.stop == u.pickUp ==> u in r.actStart && r.actStart[u] == w.departTime
    ensures forall u :: !(u in w.pickUp && w.stop == u.pickUp) ==>
              (u in r.actStart <==> u in b.actStart) && (u in b.actStart ==> r.actStart[u] == b.actStart[u])
    ensures r.busLocations == b.busLocations && r.actEnd == b.actEnd
  {
    Books(b.userLocations - w.pickUp,
          b.passengers[w.bus := b.passengers[w.bus] + w.pickUp],
          b.busLocations,
          b.actStart + Started(w.pickUp, w),
          b.actEnd)
  }

  /** A rider boarding is looked up among the waiting ones. */
  const NoWaitingRider := "KeyError: the boarding rider is not among the waiting ones"

  /** Boarding as the source writes it: taking a rider off the waiting list fails if they are not on it. */
  function BoardAsWritten(b: Books, w: RouteStop): (r: Result<Books>)
    requires w.bus in b.passengers
    ensures r.Success? <==> w.pickUp <= b.userLocations.Keys
    ensures r.Success? ==> r.value == Board(b, w)
  {
    if w.pickUp <= b.userLocations.Keys then Success(Board(b, w)) else Failure(NoWaitingRider)
  }

  // ----- check_plan -----

  /** Every route stop is made by a bus the executor knows. */
  predicate KnownBuses(b: Books, stops: seq<RouteStop>)
  {
    forall k :: 0 <= k < |stops| ==> stops[k].bus in b.passengers
  }

  /**
   * The main loop of check_plan over the route stops `s`: each stop is arrived at, and then the
   * stop before it, the only one waiting, boards if it departs by this stop's arrival.
   */
  function Replay(b: Books, s: seq<RouteStop>): (r: Books)
    requires KnownBuses(b, s)
    ensures r.passengers.Keys == b.passengers.Keys
    decreases |s|
  {
    if s == [] then b
    else
      var p := Replay(b, s[..|s| - 1]);
      var a := Arrive(p, s[|s| - 1]);
      if |s| >= 2 && Le(s[|s| - 2].departTime, s[|s| - 1].arrivTime) then Board(a, s[|s| - 2]) else a
  }

  /**
   * The last route stop after check_plan: with a final time it departs before, it is kept;
   * otherwise its departure becomes the final time and its boardings are dropped.
   */
  function FinalStop(w: RouteStop, finalTime: Option<TimeImpl>): (r: RouteStop)
    ensures r.stop == w.stop && r.arrivTime == w.arrivTime && r.dropOff == w.dropOff && r.bus == w.bus
    ensures finalTime.Some? && !Le(w.departTime, finalTime.value) ==>
              r.departTime == finalTime.value && r.pickUp == {}
    ensures (finalTime.None? || Le(w.departTime, finalTime.value)) ==> r == w
  {
    match finalTime
    case Some(t) => if Le(w.departTime, t) then w else w.(departTime := t, pickUp := {})
    case None => w
  }

  /**
   * check_plan: the main loop, then the last stop boards, without a final time always, with one
   * only if it departs by then.
   */
  function CheckPlanSpec(b: Books, done: seq<RouteStop>, finalTime: Option<TimeImpl>): Books
    requires KnownBuses(b, done)
  {
    var p := Replay(b, done);
    if done == [] then p
    else
      var last := done[|done| - 1];
      if finalTime.None? || Le(last.departTime, finalTime.value) then Board(p, last) else p
  }

  /** The main loop of check_plan as written, with the failing look-up of boarding riders. */
  function ReplayAsWritten(b: Books, s: seq<RouteStop>): (r: Result<Books>)
    requires KnownBuses(b, s)
    ensures r.Success? ==> r.value.passengers.Keys == b.passengers.Keys
    decreases |s|
  {
    if s == [] then Success(b)
    else
      match ReplayAsWritten(b, s[..|s| - 1])
      case Failure(e) => Failure(e)
      case Success(p) =>
        var a := Arrive(p, s[|s| - 1]);
        if |s| >= 2 && Le(s[|s| - 2].departTime, s[|s| - 1].arrivTime) then BoardAsWritten(a, s[|s| - 2])
        else Success(a)
  }

  /** check_plan as written. */
  function CheckPlanAsWritten(b: Books, done: seq<RouteStop>, finalTime: Option<TimeImpl>): Result<Books>
    requires KnownBuses(b, done)
  {
    match ReplayAsWritten(b, done)
    case Failure(e) => Failure(e)
    case Success(p) =>
      if done == [] then Success(p)
      else
        var last := done[|done| - 1];
        if finalTime.None? || Le(last.departTime, finalTime.value) then BoardAsWritten(p, last) else Success(p)
  }

  /** Replaying a single route stop is arriving at it; nobody is waiting to board yet. */
  lemma {:induction false} ReplaySingle(b: Books, s: RouteStop)
    requires s.bus in b.passengers
    ensures KnownBuses(b, [s]) && Replay(b, [s]) == Arrive(b, s)
    ensures ReplayAsWritten(b, [s]) == Success(Arrive(b, s))
  {
    assert [s][..0] == [];
  }

  /**
   * A rider boarding at the start of their trip was never dropped at a transfer stop, so they
   * are not among the waiting riders (a fresh executor has none): as written, replaying a
   * single stop where such a rider boards fails; corrected, the rider rides the bus, and has
   * started at the departure when the stop is the start of the trip.
   */
  lemma FirstBoardingFailsAsWritten(b: Books, s: RouteStop, u: Request)
    requires s.bus in b.passengers && u in s.pickUp && u !in s.dropOff && u !in b.userLocations
    ensures CheckPlanAsWritten(b, [s], None) == Failure(NoWaitingRider)
    ensures var c := CheckPlanSpec(b, [s], None);
            u in c.passengers[s.bus] && u !in c.userLocations &&
            (s.stop == u.pickUp ==> u in c.actStart && c.actStart[u] == s.departTime)
  {
    ReplaySingle(b, s);
  }

  /** The main loop matches its as-written twin whenever every boarding rider is waiting. */
  lemma {:induction false} ReplayAgrees(b: Books, s: seq<RouteStop>)
    requires KnownBuses(b, s)
    ensures var r := ReplayAsWritten(b, s); r.Success? ==> r.value == Replay(b, s)
    decreases |s|
  {
    if s != [] {
      ReplayAgrees(b, s[..|s| - 1]);
    }
  }

  /** The stop of the last of the route stops `s` made by bus `x`, if any. */
  function LastStopOf(s: seq<RouteStop>, x: Bus): Option<Stop>
    decreases |s|
  {
    if s == [] then None
    else if s[|s| - 1].bus == x then Some(s[|s| - 1].stop)
    else LastStopOf(s[..|s| - 1], x)
  }

  /** The last stop of `x` is one of its route stops, and there is none exactly when no route stop is `x`'s. */
  lemma {:induction false} LastStopOfMeaning(s: seq<RouteStop>, x: Bus)
    ensures var r := LastStopOf(s, x);
            (r.Some? ==> exists k :: 0 <= k < |s| && s[k].bus == x && s[k].stop == r.value) &&
            (r.None? <==> forall k :: 0 <= k < |s| ==> s[k].bus != x)
    decreases |s|
  {
    if s != [] {
      var n := |s| - 1;
      if s[n].bus != x {
        LastStopOfMeaning(s[..n], x);
        var r := LastStopOf(s, x);
        if r.Some? {
          var k :| 0 <= k < n && s[..n][k].bus == x && s[..n][k].stop == r.value;
          assert s[k] == s[..n][k];
        }
        if r.None? {
          forall k | 0 <= k < |s|
            ensures s[k].bus != x
          {
            if k < n {
              assert s[k] == s[..n][k];
            }
          }
        }
      }
    }
  }

  /** After the replay every bus is at the stop of its last route stop, or where it was. */
  lemma {:induction false} ReplayLocations(b: Books, s: seq<RouteStop>, x: Bus)
    requires KnownBuses(b, s)
    ensures var r := Replay(b, s);
            match LastStopOf(s, x)
            case Some(v) => x in r.busLocations && r.busLocations[x] == v
            case None => (x in r.busLocations <==> x in b.busLocations) &&
                         (x in b.busLocations ==> r.busLocations[x] == b.busLocations[x])
    decreases |s|
  {
    if s != [] {
      var n := |s| - 1;
      ReplayLocations(b, s[..n], x);
      var a := Arrive(Replay(b, s[..n]), s[n]);
      assert Replay(b, s).busLocations == a.busLocations;
      if s[n].bus != x {
        assert LastStopOf(s, x) == LastStopOf(s[..n], x);
      }
    }
  }

  /** After the replay every rider of a bus rode it before or boarded at one of its stops. */
  lemma {:induction false} ReplayRiders(b: Books, s: seq<RouteStop>, x: Bus, u: Request)
    requires KnownBuses(b, s) && x in b.passengers
    ensures u in Replay(b, s).passengers[x] ==>
              u in b.passengers[x] || exists k :: 0 <= k < |s| && s[k].bus == x && u in s[k].pickUp
    decreases |s|
  {
    if s != [] {
      var n := |s| - 1;
      ReplayRiders(b, s[..n], x, u);
      if u in Replay(b, s).passengers[x] && u !in b.passengers[x] {
        var p := Replay(b, s[..n]);
        if u in p.passengers[x] {
          var k :| 0 <= k < n && s[..n][k].bus == x && u in s[..n][k].pickUp;
          assert s[k] == s[..n][k];
        } else {
          assert n >= 1 && s[n - 1].bus == x && u in s[n - 1].pickUp;
        }
      }
    }
  }

  /** After the replay every waiting rider was waiting before or alighted at one of the stops. */
  lemma {:induction false} ReplayWaiting(b: Books, s: seq<RouteStop>, u: Request)
    requires KnownBuses(b, s)
    ensures u in Replay(b, s).userLocations ==>
              u in b.userLocations || exists k :: 0 <= k < |s| && u in s[k].dropOff
    decreases |s|
  {
    if s != [] {
      var n := |s| - 1;
      ReplayWaiting(b, s[..n], u);
      if u in Replay(b, s).userLocations && u !in b.userLocations {
        if u in Replay(b, s[..n]).userLocations {
          var k :| 0 <= k < n && u in s[..n][k].dropOff;
          assert s[k] == s[..n][k];
        } else {
          assert u in s[n].dropOff;
        }
      }
    }
  }

  /**
   * As written, the main loop fails at the first boarding of a rider who has not alighted
   * anywhere before: replaying from a fresh executor, a rider boarding at the second-to-last
   * stop who alights at none of the stops makes the replay fail.
   */
  lemma {:induction false} UndroppedBoardingFailsAsWritten(b: Books, s: seq<RouteStop>, u: Request)
    requires KnownBuses(b, s) && |s| >= 2 && u !in b.userLocations
    requires u in s[|s| - 2].pickUp && Le(s[|s| - 2].departTime, s[|s| - 1].arrivTime)
    requires forall k :: 0 <= k < |s| ==> u !in s[k].dropOff
    ensures ReplayAsWritten(b, s).Failure?
  {
    var n := |s| - 1;
    var r := ReplayAsWritten(b, s[..n]);
    if r.Success? {
      ReplayAgrees(b, s[..n]);
      ReplayWaiting(b, s[..n], u);
      forall k | 0 <= k < n
        ensures u !in s[..n][k].dropOff
      {
        assert s[..n][k] == s[k];
      }
    }
  }

  /** Route stops of a prefix are made by known buses too. */
  lemma KnownPrefix(b: Books, s: seq<RouteStop>, n: nat)
    requires KnownBuses(b, s) && n <= |s|
    ensures KnownBuses(b, s[..n])
  {
    forall k | 0 <= k < n
      ensures s[..n][k].bus in b.passengers
    {
      assert s[..n][k] == s[k];
    }
  }

  /** One step of the main loop of check_plan, in the terms of the route stops `s`. */
  lemma {:induction false} ReplaySnoc(b: Books, s: seq<RouteStop>, i: nat)
    requires KnownBuses(b, s) && i < |s|
    ensures KnownBuses(b, s[..i]) && KnownBuses(b, s[..i + 1])
    ensures var a := Arrive(Replay(b, s[..i]), s[i]);
            Replay(b, s[..i + 1]) == if i >= 1 && Le(s[i - 1].departTime, s[i].arrivTime) then Board(a, s[i - 1]) else a
  {
    KnownPrefix(b, s, i);
    KnownPrefix(b, s, i + 1);
    assert s[..i + 1][..i] == s[..i];
  }

  // ----- the routes -----

  /** Routes are ordered by the id of their bus. */
  function BusKey(r: Route): real
  {
    r.bus.id as real
  }

  /** Route stops are ordered by their arrival. */
  function ArrivalKey(s: RouteStop): real
  {
    GetInMinutes(s.arrivTime)
  }

  /** One empty route per bus, in the order of the buses. */
  function EmptyRoutes(buses: seq<Bus>): (rs: seq<Route>)
    ensures |rs| == |buses| && forall i :: 0 <= i < |buses| ==> rs[i] == Route(buses[i], [])
  {
    seq(|buses|, i requires 0 <= i < |buses| => Route(buses[i], []))
  }

  /** The routes of a fresh executor: one empty route per bus, ordered by bus id. */
  lemma InitialRoutes(buses: seq<Bus>)
    ensures var rs := SortBy(EmptyRoutes(buses), BusKey);
            |rs| == |buses| && SortedBy(rs, BusKey) &&
            (forall i :: 0 <= i < |rs| ==> rs[i].stopList == [] && rs[i].bus in buses) &&
            (forall x :: x in buses ==> exists i :: 0 <= i < |rs| && rs[i].bus == x)
  {
    var es := EmptyRoutes(buses);
    var rs := SortBy(es, BusKey);
    forall i | 0 <= i < |rs|
      ensures rs[i].stopList == [] && rs[i].bus in buses
    {
      SortByMembers(es, BusKey, rs[i]);
      var j :| 0 <= j < |es| && es[j] == rs[i];
    }
    forall x | x in buses
      ensures exists i :: 0 <= i < |rs| && rs[i].bus == x
    {
      var j :| 0 <= j < |buses| && buses[j] == x;
      SortByMembers(es, BusKey, es[j]);
      var i :| 0 <= i < |rs| && rs[i] == es[j];
    }
  }

  // ----- execute_plan -----

  /** Indexing past the end of a list. */
  const OutOfRange := "IndexError: list index out of range"

  /** Every route stop of the current routes is made by a bus the executor knows. */
  predicate KnownRoutes(b: Books, cur: seq<Route>)
  {
    forall i, x :: 0 <= i < |cur| && x in cur[i].stopList ==> x.bus in b.passengers
  }

  /** Every one of the route stops `stops` is a stop of one of the routes `cur`. */
  predicate FromRoutes(stops: seq<RouteStop>, cur: seq<Route>)
  {
    forall x :: x in stops ==> exists i :: 0 <= i < |cur| && x in cur[i].stopList
  }

  /** The route stops of all routes, route after route. */
  function Flatten(cur: seq<Route>): (s: seq<RouteStop>)
    ensures forall x :: x in s <==> exists i :: 0 <= i < |cur| && x in cur[i].stopList
    decreases |cur|
  {
    if cur == [] then []
    else
      var init := cur[..|cur| - 1];
      var s := Flatten(init) + cur[|cur| - 1].stopList;
      assert forall i :: 0 <= i < |init| ==> init[i] == cur[i];
      s
  }

  /** Each stored route gets the route stops of the current route at the same place appended. */
  function AppendedRoutes(routes: seq<Route>, cur: seq<Route>): (r: seq<Route>)
    requires |cur| <= |routes|
    ensures |r| == |routes|
    ensures forall i :: 0 <= i < |routes| ==> r[i].bus == routes[i].bus
    ensures forall i :: 0 <= i < |cur| ==> r[i].stopList == routes[i].stopList + cur[i].stopList
    ensures forall i :: |cur| <= i < |routes| ==> r[i] == routes[i]
  {
    seq(|routes|, i requires 0 <= i < |routes| =>
      if i < |cur| then Route(routes[i].bus, routes[i].stopList + cur[i].stopList) else routes[i])
  }

  /**
   * How many route stops at the front of `stops` arrive before `t`: the stops up to the first
   * one that does not.
   */
  function LeadingBefore(stops: seq<RouteStop>, t: TimeImpl): (c: nat)
    ensures c <= |stops|
    ensures forall i :: 0 <= i < c ==> Lt(stops[i].arrivTime, t)
    ensures c < |stops| ==> !Lt(stops[c].arrivTime, t)
    decreases |stops|
  {
    if stops == [] || !Lt(stops[0].arrivTime, t) then 0
    else 1 + LeadingBefore(stops[1..], t)
  }

  /** On route stops ordered by arrival, the leading stops are exactly those arriving before `t`. */
  lemma {:induction false} LeadingSorted(stops: seq<RouteStop>, t: TimeImpl, i: nat)
    requires SortedBy(stops, ArrivalKey) && i < |stops|
    ensures i < LeadingBefore(stops, t) <==> Lt(stops[i].arrivTime, t)
  {
    var c := LeadingBefore(stops, t);
    if c <= i && c < |stops| {
      assert ArrivalKey(stops[c]) <= ArrivalKey(stops[i]);
    }
  }

  /** The stored routes, the bus delays and the route stops done, as execute_plan commits them. */
  datatype Commit = Commit(routes: seq<Route>, delay: map<Bus, TimeImpl>, done: seq<RouteStop>)

  /** A current route can be committed at position `k` of `n` stored routes without failing. */
  predicate RouteCommits(r: Route, k: nat, n: nat, t: TimeImpl)
  {
    var stops := r.stopList;
    var c := LeadingBefore(stops, t);
    !(c > 0 && (k >= n || c == |stops|)) &&
    (c < |stops| ==> SubTimes(stops[c].arrivTime, t).Success?)
  }

  /**
   * Committing the current route `r` at position `k`: its stops arriving before `t` are done
   * and appended to the stored route `k`; the first one that does not sets the bus delay to
   * the time from `t` to its arrival. Committing every stop of a route, or committing any to
   * a stored route that does not exist, fails.
   */
  function CommitRoute(st: Commit, r: Route, k: nat, t: TimeImpl): (res: Result<Commit>)
    ensures res.Success? <==> RouteCommits(r, k, |st.routes|, t)
    ensures res.Success? ==>
              var c := LeadingBefore(r.stopList, t);
              |res.value.routes| == |st.routes| && res.value.done == st.done + r.stopList[..c] &&
              (forall j :: 0 <= j < |st.routes| && j != k ==> res.value.routes[j] == st.routes[j]) &&
              (k < |st.routes| ==> res.value.routes[k].bus == st.routes[k].bus &&
                                   res.value.routes[k].stopList == st.routes[k].stopList + r.stopList[..c])
    ensures res.Success? && LeadingBefore(r.stopList, t) < |r.stopList| ==>
              res.value.delay == st.delay[r.bus := SubTimes(r.stopList[LeadingBefore(r.stopList, t)].arrivTime, t).value]
    ensures res.Success? && LeadingBefore(r.stopList, t) == |r.stopList| ==> res.value.delay == st.delay
  {
    var stops := r.stopList;
    var c := LeadingBefore(stops, t);
    if c > 0 && (k >= |st.routes| || c == |stops|) then Failure(OutOfRange)
    else
      var routes := if c > 0 then st.routes[k := Route(st.routes[k].bus, st.routes[k].stopList + stops[..c])]
                    else st.routes;
      var done := st.done + stops[..c];
      if c < |stops| then
        match SubTimes(stops[c].arrivTime, t)
        case Failure(e) => Failure(e)
        case Success(d) => Success(Commit(routes, st.delay[r.bus := d], done))
      else Success(Commit(routes, st.delay, done))
  }

  /** Committing the current routes from position `k` on, in order; the first failure stops it. */
  function CommitFrom(st: Commit, cur: seq<Route>, k: nat, t: TimeImpl): (res: Result<Commit>)
    requires k <= |cur|
    ensures res.Success? ==> |res.value.routes| == |st.routes|
    decreases |cur| - k
  {
    if k == |cur| then Success(st)
    else
      match CommitRoute(st, cur[k], k, t)
      case Failure(e) => Failure(e)
      case Success(next) => CommitFrom(next, cur, k + 1, t)
  }

  /** Committing succeeds exactly when every one of the routes can be committed. */
  lemma {:induction false} CommitSucceeds(st: Commit, cur: seq<Route>, k: nat, t: TimeImpl)
    requires k <= |cur|
    ensures CommitFrom(st, cur, k, t).Success? <==>
              forall j :: k <= j < |cur| ==> RouteCommits(cur[j], j, |st.routes|, t)
    decreases |cur| - k
  {
    if k < |cur| {
      var step := CommitRoute(st, cur[k], k, t);
      if step.Success? {
        CommitSucceeds(step.value, cur, k + 1, t);
      }
    }
  }

  /** `x` is one of the leading stops of a current route from position `k` on. */
  predicate LeadingIn(cur: seq<Route>, k: nat, t: TimeImpl, x: RouteStop)
    requires k <= |cur|
  {
    exists j, i :: k <= j < |cur| && 0 <= i < LeadingBefore(cur[j].stopList, t) && x == cur[j].stopList[i]
  }

  /** Being a leading stop from `k` on: of the route at `k`, or of one after it. */
  lemma LeadingInStep(cur: seq<Route>, k: nat, t: TimeImpl, x: RouteStop)
    requires k < |cur|
    ensures LeadingIn(cur, k, t, x) <==>
              x in cur[k].stopList[..LeadingBefore(cur[k].stopList, t)] || LeadingIn(cur, k + 1, t, x)
  {
    var stops := cur[k].stopList;
    var c := LeadingBefore(stops, t);
    if x in stops[..c] {
      var i :| 0 <= i < c && stops[..c][i] == x;
      assert x == cur[k].stopList[i];
    }
    if LeadingIn(cur, k, t, x) {
      var j, i :| k <= j < |cur| && 0 <= i < LeadingBefore(cur[j].stopList, t) && x == cur[j].stopList[i];
      if j == k {
        assert stops[..c][i] == x;
      }
    }
  }

  /** The route stops done are the leading stops of every route, and only those. */
  lemma {:induction false} CommitDone(st: Commit, cur: seq<Route>, k: nat, t: TimeImpl, x: RouteStop)
    requires k <= |cur|
    ensures var res := CommitFrom(st, cur, k, t);
            res.Success? ==> (x in res.value.done <==> x in st.done || LeadingIn(cur, k, t, x))
    decreases |cur| - k
  {
    if k < |cur| {
      var step := CommitRoute(st, cur[k], k, t);
      if step.Success? {
        CommitDone(step.value, cur, k + 1, t, x);
        LeadingInStep(cur, k, t, x);
      }
    }
  }

  /** Each stored route gets exactly the leading stops of the current route at its place. */
  lemma {:induction false} CommitStored(st: Commit, cur: seq<Route>, k: nat, t: TimeImpl, j: nat)
    requires k <= |cur| && j < |st.routes|
    ensures var res := CommitFrom(st, cur, k, t);
            res.Success? ==>
              |res.value.routes| == |st.routes| && res.value.routes[j].bus == st.routes[j].bus &&
              res.value.routes[j].stopList ==
                st.routes[j].stopList + (if k <= j < |cur| then cur[j].stopList[..LeadingBefore(cur[j].stopList, t)] else [])
    decreases |cur| - k
  {
    if k < |cur| {
      var step := CommitRoute(st, cur[k], k, t);
      if step.Success? {
        CommitStored(step.value, cur, k + 1, t, j);
        if j == k {
          CommitKeeps(step.value, cur, k + 1, t, j);
        }
      }
    }
  }

  /** Committing from position `k` on leaves the stored routes before `k` alone. */
  lemma {:induction false} CommitKeeps(st: Commit, cur: seq<Route>, k: nat, t: TimeImpl, j: nat)
    requires k <= |cur| && j < k && j < |st.routes|
    ensures var res := CommitFrom(st, cur, k, t);
            res.Success? ==> |res.value.routes| == |st.routes| && res.value.routes[j] == st.routes[j]
    decreases |cur| - k
  {
    if k < |cur| {
      var step := CommitRoute(st, cur[k], k, t);
      if step.Success? {
        CommitKeeps(step.value, cur, k + 1, t, j);
      }
    }
  }

  /** The delay of a bus none of the routes from position `k` on belongs to is left alone. */
  lemma {:induction false} CommitDelayKept(st: Commit, cur: seq<Route>, k: nat, t: TimeImpl, x: Bus)
    requires k <= |cur| && forall j :: k <= j < |cur| ==> cur[j].bus != x
    ensures var res := CommitFrom(st, cur, k, t);
            res.Success? ==>
              (x in res.value.delay <==> x in st.delay) && (x in st.delay ==> res.value.delay[x] == st.delay[x])
    decreases |cur| - k
  {
    if k < |cur| {
      var step := CommitRoute(st, cur[k], k, t);
      if step.Success? {
        CommitDelayKept(step.value, cur, k + 1, t, x);
      }
    }
  }

  /**
   * When no other route belongs to the bus of route `j`, its delay is the time from `t` to the
   * arrival at its first stop not before `t`, and is left alone when there is none.
   */
  lemma {:induction false} CommitDelaySet(st: Commit, cur: seq<Route>, k: nat, t: TimeImpl, j: nat)
    requires k <= j < |cur| && forall i :: k <= i < |cur| && i != j ==> cur[i].bus != cur[j].bus
    ensures var res := CommitFrom(st, cur, k, t);
            var x := cur[j].bus;
            var stops := cur[j].stopList;
            var c := LeadingBefore(stops, t);
            res.Success? ==>
              (c < |stops| ==> x in res.value.delay && SubTimes(stops[c].arrivTime, t) == Success(res.value.delay[x])) &&
              (c == |stops| ==> (x in res.value.delay <==> x in st.delay) &&
                                (x in st.delay ==> res.value.delay[x] == st.delay[x]))
    decreases |cur| - k
  {
    var step := CommitRoute(st, cur[k], k, t);
    if step.Success? {
      if k == j {
        CommitDelayKept(step.value, cur, k + 1, t, cur[j].bus);
      } else {
        CommitDelaySet(step.value, cur, k + 1, t, j);
      }
    }
  }

  /** The state of the executor, with the bus delays and the stored routes. */
  datatype ExecState = ExecState(books: Books, delay: map<Bus, TimeImpl>, routes: seq<Route>)

  /** Sorting the current routes keeps every route stop known. */
  lemma {:induction false} KnownSortedRoutes(b: Books, cur: seq<Route>)
    requires KnownRoutes(b, cur)
    ensures KnownRoutes(b, SortBy(cur, BusKey))
  {
    var sorted := SortBy(cur, BusKey);
    forall i, x | 0 <= i < |sorted| && x in sorted[i].stopList
      ensures x.bus in b.passengers
    {
      SortByMembers(cur, BusKey, sorted[i]);
    }
  }

  /** Route stops taken from known routes, ordered by arrival, are made by known buses. */
  lemma {:induction false} KnownSortedStops(b: Books, cur: seq<Route>, stops: seq<RouteStop>)
    requires KnownRoutes(b, cur) && FromRoutes(stops, cur)
    ensures KnownBuses(b, SortBy(stops, ArrivalKey))
  {
    var sorted := SortBy(stops, ArrivalKey);
    forall k | 0 <= k < |sorted|
      ensures sorted[k].bus in b.passengers
    {
      SortByMembers(stops, ArrivalKey, sorted[k]);
    }
  }

  /** The route stops done by committing are taken from the current routes. */
  lemma {:induction false} CommittedFromRoutes(cur: seq<Route>, t: TimeImpl, st: Commit)
    requires st.done == []
    ensures var res := CommitFrom(st, cur, 0, t);
            res.Success? ==> FromRoutes(res.value.done, cur)
  {
    var res := CommitFrom(st, cur, 0, t);
    if res.Success? {
      forall x | x in res.value.done
        ensures exists i :: 0 <= i < |cur| && x in cur[i].stopList
      {
        CommitDone(st, cur, 0, t, x);
        var j, i :| 0 <= j < |cur| && 0 <= i < LeadingBefore(cur[j].stopList, t) && x == cur[j].stopList[i];
      }
    }
  }

  /**
   * execute_plan: the current routes are ordered by bus id. Without a next time the whole plan
   * is appended to the stored routes and all its stops are replayed in order of arrival; with
   * one only the stops arriving before it are committed and replayed. Either way the stop
   * replayed last boards.
   */
  function ExecuteSpec(s: ExecState, cur: seq<Route>, timeNext: Option<TimeImpl>): (r: Result<ExecState>)
    requires KnownRoutes(s.books, cur)
    ensures r.Success? ==> r.value.books.passengers.Keys == s.books.passengers.Keys
    ensures r.Success? ==> |r.value.routes| == |s.routes|
    ensures timeNext.None? ==> (r.Success? <==> |cur| <= |s.routes|)
    ensures timeNext.None? && r.Success? ==> r.value.delay == s.delay
  {
    var sorted := SortBy(cur, BusKey);
    KnownSortedRoutes(s.books, cur);
    match timeNext
    case None =>
      if |sorted| > |s.routes| then Failure(OutOfRange)
      else
        var all := Flatten(sorted);
        KnownSortedStops(s.books, sorted, all);
        Success(ExecState(CheckPlanSpec(s.books, SortBy(all, ArrivalKey), None), s.delay,
                          AppendedRoutes(s.routes, sorted)))
    case Some(t) =>
      var st := Commit(s.routes, s.delay, []);
      match CommitFrom(st, sorted, 0, t)
      case Failure(e) => Failure(e)
      case Success(c) =>
        CommittedFromRoutes(sorted, t, st);
        KnownSortedStops(s.books, sorted, c.done);
        Success(ExecState(CheckPlanSpec(s.books, SortBy(c.done, ArrivalKey), None), c.delay, c.routes))
  }

  /**
   * The route stops execute_plan replays: taken from the current routes, all of them without a
   * next time; the books after it are check_plan's on them.
   */
  lemma ReplayedStops(s: ExecState, cur: seq<Route>, timeNext: Option<TimeImpl>) returns (stops: seq<RouteStop>)
    requires KnownRoutes(s.books, cur)
    ensures var r := ExecuteSpec(s, cur, timeNext);
            r.Success? ==>
              KnownBuses(s.books, stops) && r.value.books == CheckPlanSpec(s.books, stops, None) &&
              (forall y :: y in stops ==> exists i :: 0 <= i < |cur| && y in cur[i].stopList) &&
              (timeNext.None? ==> forall i, y :: 0 <= i < |cur| && y in cur[i].stopList ==> y in stops)
  {
    var sorted := SortBy(cur, BusKey);
    KnownSortedRoutes(s.books, cur);
    var taken: seq<RouteStop>;
    if timeNext.None? {
      taken := Flatten(sorted);
      forall i, y | 0 <= i < |cur| && y in cur[i].stopList
        ensures y in taken
      {
        SortByMembers(cur, BusKey, cur[i]);
        var j :| 0 <= j < |sorted| && sorted[j] == cur[i];
      }
    } else {
      var st := Commit(s.routes, s.delay, []);
      var res := CommitFrom(st, sorted, 0, timeNext.value);
      taken := if res.Success? then res.value.done else [];
      CommittedFromRoutes(sorted, timeNext.value, st);
    }
    stops := SortBy(taken, ArrivalKey);
    if ExecuteSpec(s, cur, timeNext).Success? {
      KnownSortedStops(s.books, sorted, taken);
      forall y | y in stops
        ensures exists i :: 0 <= i < |cur| && y in cur[i].stopList
      {
        SortByMembers(taken, ArrivalKey, y);
        var j :| 0 <= j < |sorted| && y in sorted[j].stopList;
        SortByMembers(cur, BusKey, sorted[j]);
      }
      forall y | y in taken
        ensures y in stops
      {
        SortByMembers(taken, ArrivalKey, y);
      }
    }
  }

  /**
   * After check_plan with no final time every bus is where it was or at the stop of one of
   * the route stops it makes, and at one of those if it makes any.
   */
  lemma CheckPlanLocations(b: Books, stops: seq<RouteStop>, x: Bus)
    requires KnownBuses(b, stops)
    ensures var c := CheckPlanSpec(b, stops, None);
            x in c.busLocations ==>
              (x in b.busLocations && c.busLocations[x] == b.busLocations[x]) ||
              exists k :: 0 <= k < |stops| && stops[k].bus == x && c.busLocations[x] == stops[k].stop
    ensures var c := CheckPlanSpec(b, stops, None);
            (exists k :: 0 <= k < |stops| && stops[k].bus == x) ==>
              x in c.busLocations && exists k :: 0 <= k < |stops| && stops[k].bus == x && c.busLocations[x] == stops[k].stop
  {
    ReplayLocations(b, stops, x);
    LastStopOfMeaning(stops, x);
    assert CheckPlanSpec(b, stops, None).busLocations == Replay(b, stops).busLocations;
  }

  /** After check_plan with no final time every rider of a bus rode it before or boarded at one of its stops. */
  lemma CheckPlanRiders(b: Books, stops: seq<RouteStop>, x: Bus, u: Request)
    requires KnownBuses(b, stops) && x in b.passengers
    ensures u in CheckPlanSpec(b, stops, None).passengers[x] ==>
              u in b.passengers[x] || exists k :: 0 <= k < |stops| && stops[k].bus == x && u in stops[k].pickUp
  {
    ReplayRiders(b, stops, x, u);
    if stops != [] && u !in Replay(b, stops).passengers[x] {
      assert u in CheckPlanSpec(b, stops, None).passengers[x] ==> stops[|stops| - 1].bus == x && u in stops[|stops| - 1].pickUp;
    }
  }

  /**
   * What execute_plan appends to the stored route at place `j`, with the current routes ordered
   * by bus id: without a next time the whole current route at that place; with one its leading
   * stops, which are the ones arriving before the next time when the route is ordered by arrival.
   */
  lemma {:induction false} ExecuteStored(s: ExecState, cur: seq<Route>, timeNext: Option<TimeImpl>, j: nat)
    requires KnownRoutes(s.books, cur) && j < |s.routes|
    ensures var r := ExecuteSpec(s, cur, timeNext);
            var sorted := SortBy(cur, BusKey);
            r.Success? ==>
              r.value.routes[j].bus == s.routes[j].bus &&
              (j >= |sorted| ==> r.value.routes[j] == s.routes[j]) &&
              (j < |sorted| && timeNext.None? ==>
                 r.value.routes[j].stopList == s.routes[j].stopList + sorted[j].stopList) &&
              (j < |sorted| && timeNext.Some? ==>
                 var stops := sorted[j].stopList;
                 var c := LeadingBefore(stops, timeNext.value);
                 r.value.routes[j].stopList == s.routes[j].stopList + stops[..c] &&
                 (SortedBy(stops, ArrivalKey) ==> forall i :: 0 <= i < |stops| ==> (i < c <==> Lt(stops[i].arrivTime, timeNext.value))))
  {
    var sorted := SortBy(cur, BusKey);
    if timeNext.Some? {
      var t := timeNext.value;
      CommitStored(Commit(s.routes, s.delay, []), sorted, 0, t, j);
      if j < |sorted| && SortedBy(sorted[j].stopList, ArrivalKey) {
        forall i | 0 <= i < |sorted[j].stopList|
          ensures i < LeadingBefore(sorted[j].stopList, t) <==> Lt(sorted[j].stopList[i].arrivTime, t)
        {
          LeadingSorted(sorted[j].stopList, t, i);
        }
      }
    }
  }

  /**
   * After execute_plan every bus is where it was or at the stop of one of its route stops; with
   * no next time, a bus with route stops is at one of them.
   */
  lemma ExecuteLocations(s: ExecState, cur: seq<Route>, timeNext: Option<TimeImpl>, x: Bus)
    requires KnownRoutes(s.books, cur)
    ensures var r := ExecuteSpec(s, cur, timeNext);
            r.Success? && x in r.value.books.busLocations ==>
              (x in s.books.busLocations && r.value.books.busLocations[x] == s.books.busLocations[x]) ||
              exists i, y :: 0 <= i < |cur| && y in cur[i].stopList && y.bus == x && r.value.books.busLocations[x] == y.stop
    ensures var r := ExecuteSpec(s, cur, timeNext);
            r.Success? && timeNext.None? && (exists i, y :: 0 <= i < |cur| && y in cur[i].stopList && y.bus == x) ==>
              x in r.value.books.busLocations &&
              exists i, y :: 0 <= i < |cur| && y in cur[i].stopList && y.bus == x && r.value.books.busLocations[x] == y.stop
  {
    var r := ExecuteSpec(s, cur, timeNext);
    var stops := ReplayedStops(s, cur, timeNext);
    if r.Success? {
      var c := r.value.books;
      CheckPlanLocations(s.books, stops, x);
      if exists k :: 0 <= k < |stops| && stops[k].bus == x && c.busLocations[x] == stops[k].stop {
        var k :| 0 <= k < |stops| && stops[k].bus == x && c.busLocations[x] == stops[k].stop;
        var y := stops[k];
        assert y in stops;
        var i :| 0 <= i < |cur| && y in cur[i].stopList;
      }
      if timeNext.None? && exists i, y :: 0 <= i < |cur| && y in cur[i].stopList && y.bus == x {
        var i, y :| 0 <= i < |cur| && y in cur[i].stopList && y.bus == x;
        assert y in stops;
        var k :| 0 <= k < |stops| && stops[k] == y;
      }
    }
  }

  /** After execute_plan every rider of a bus rode it before or boards at one of its route stops. */
  lemma ExecuteRiders(s: ExecState, cur: seq<Route>, timeNext: Option<TimeImpl>, x: Bus, u: Request)
    requires KnownRoutes(s.books, cur) && x in s.books.passengers
    ensures var r := ExecuteSpec(s, cur, timeNext);
            r.Success? && u in r.value.books.passengers[x] ==>
              u in s.books.passengers[x] ||
              exists i, y :: 0 <= i < |cur| && y in cur[i].stopList && y.bus == x && u in y.pickUp
  {
    var r := ExecuteSpec(s, cur, timeNext);
    var stops := ReplayedStops(s, cur, timeNext);
    if r.Success? && u in r.value.books.passengers[x] && u !in s.books.passengers[x] {
      CheckPlanRiders(s.books, stops, x, u);
      var k :| 0 <= k < |stops| && stops[k].bus == x && u in stops[k].pickUp;
      var y := stops[k];
      assert y in stops;
      var i :| 0 <= i < |cur| && y in cur[i].stopList;
    }
  }

  // ----- the executor -----

  /** One more rider alighting adds one entry to the waiting riders or to the end times. */
  lemma AlightOne(ul: map<Request, Stop>, ae: map<Request, TimeImpl>, gone: set<Request>, rs: RouteStop, u: Request)
    ensures rs.stop != u.dropOff ==>
              ul + Waiting(gone + {u}, rs) == (ul + Waiting(gone, rs))[u := rs.stop] &&
              ae + Arrived(gone + {u}, rs) == ae + Arrived(gone, rs)
    ensures rs.stop == u.dropOff ==>
              ul + Waiting(gone + {u}, rs) == ul + Waiting(gone, rs) &&
              ae + Arrived(gone + {u}, rs) == (ae + Arrived(gone, rs))[u := rs.arrivTime]
  {
  }

  /** One more rider boarding adds an entry to the start times at the start of their trip. */
  lemma BoardOne(st: map<Request, TimeImpl>, gone: set<Request>, w: RouteStop, u: Request)
    ensures w.stop == u.pickUp ==> st + Started(gone + {u}, w) == (st + Started(gone, w))[u := w.departTime]
    ensures w.stop != u.pickUp ==> st + Started(gone + {u}, w) == st + Started(gone, w)
  {
  }

  class Executor {
    var userLocations: map<Request, Stop>
    var passengers: map<Bus, set<Request>>
    var busLocations: map<Bus, Stop>
    var busDelay: map<Bus, TimeImpl>
    var routes: seq<Route>
    var actStart: map<Request, TimeImpl>
    var actEnd: map<Request, TimeImpl>

    /** The books the fields hold. */
    function Current(): Books
      reads this
    {
      Books(userLocations, passengers, busLocations, actStart, actEnd)
    }

    /** A fresh executor for a fleet. */
    constructor (buses: seq<Bus>)
      ensures Current() == InitialBooks(buses)
      ensures busDelay == (map x | x in buses :: TimeImpl(0, 0, 0))
      ensures routes == SortBy(EmptyRoutes(buses), BusKey)
    {
      userLocations := map[];
      passengers := map x | x in buses :: {};
      busLocations := map x | x in buses :: x.depot;
      busDelay := map x | x in buses :: TimeImpl(0, 0, 0);
      routes := SortBy(EmptyRoutes(buses), BusKey);
      actStart := map[];
      actEnd := map[];
    }

    /** The bus of `rs` arrives there and its riders alighting there leave it, one by one. */
    method ArriveAt(rs: RouteStop)
      requires rs.bus in passengers
      modifies this
      ensures Current() == Arrive(old(Current()), rs)
      ensures busDelay == old(busDelay) && routes == old(routes)
    {
      busLocations := busLocations[rs.bus := rs.stop];
      var riders := passengers[rs.bus];
      var left := rs.dropOff;
      ghost var gone: set<Request> := {};
      while left != {}
        invariant left + gone == rs.dropOff && left !! gone
        invariant riders == old(passengers)[rs.bus] - gone && passengers == old(passengers)
        invariant userLocations == old(userLocations) + Waiting(gone, rs) && actEnd == old(actEnd) + Arrived(gone, rs)
        invariant busLocations == old(busLocations)[rs.bus := rs.stop] && actStart == old(actStart)
        invariant busDelay == old(busDelay) && routes == old(routes)
        decreases left
      {
        var u :| u in left;
        if u in riders {
          riders := riders - {u};
        }
        AlightOne(old(userLocations), old(actEnd), gone, rs, u);
        if rs.stop != u.dropOff {
          userLocations := userLocations[u := rs.stop];
        } else {
          actEnd := actEnd[u := rs.arrivTime];
        }
        left, gone := left - {u}, gone + {u};
      }
      passengers := passengers[rs.bus := riders];
    }

    /** The riders boarding at `w` leave the waiting riders and board its bus, one by one. */
    method BoardAt(w: RouteStop)
      requires w.bus in passengers
      modifies this
      ensures Current() == Board(old(Current()), w)
      ensures busDelay == old(busDelay) && routes == old(routes)
    {
      var riders := passengers[w.bus];
      var left := w.pickUp;
      ghost var gone: set<Request> := {};
      while left != {}
        invariant left + gone == w.pickUp && left !! gone
        invariant riders == old(passengers)[w.bus] + gone && passengers == old(passengers)
        invariant userLocations == old(userLocations) - gone
        invariant actStart == old(actStart) + Started(gone, w)
        invariant busLocations == old(busLocations) && actEnd == old(actEnd)
        invariant busDelay == old(busDelay) && routes == old(routes)
        decreases left
      {
        var u :| u in left;
        userLocations := userLocations - {u};
        riders := riders + {u};
        BoardOne(old(actStart), gone, w, u);
        if w.stop == u.pickUp {
          actStart := actStart[u := w.departTime];
        }
        left, gone := left - {u}, gone + {u};
      }
      passengers := passengers[w.bus := riders];
    }

    /**
     * The main loop of check_plan over the route stops `done`; the waiting list holds exactly
     * the stop before the current one. Returns that list at the end.
     */
    method ReplayStops(done: seq<RouteStop>) returns (waiting: seq<RouteStop>)
      requires KnownBuses(Current(), done)
      modifies this
      ensures Current() == Replay(old(Current()), done)
      ensures |waiting| == (if done == [] then 0 else 1) && (done != [] ==> waiting[0] == done[|done| - 1])
      ensures busDelay == old(busDelay) && routes == old(routes)
    {
      ghost var b0 := Current();
      waiting := [];
      for i := 0 to |done|
        invariant passengers.Keys == b0.passengers.Keys
        invariant KnownBuses(b0, done[..i]) && Current() == Replay(b0, done[..i])
        invariant |waiting| == (if i == 0 then 0 else 1) && (i > 0 ==> waiting[0] == done[i - 1])
        invariant busDelay == old(busDelay) && routes == old(routes)
      {
        ReplaySnoc(b0, done, i);
        assert done[i].bus in b0.passengers && (i > 0 ==> done[i - 1].bus in b0.passengers);
        waiting := ReplayOne(waiting, done[i]);
      }
      assert done[..|done|] == done;
    }

    /**
     * One pass of check_plan's main loop: arrive at `rs`, then the waiting stop boards if it
     * departs by the arrival, and `rs` becomes the only stop waiting.
     */
    method ReplayOne(waiting: seq<RouteStop>, rs: RouteStop) returns (next: seq<RouteStop>)
      requires rs.bus in passengers && |waiting| <= 1 && (waiting != [] ==> waiting[0].bus in passengers)
      modifies this
      ensures var a := Arrive(old(Current()), rs);
              Current() == if waiting != [] && Le(waiting[0].departTime, rs.arrivTime) then Board(a, waiting[0]) else a
      ensures next == [rs]
      ensures busDelay == old(busDelay) && routes == old(routes)
    {
      next := waiting;
      var currTime := rs.arrivTime;
      ArriveAt(rs);
      if next != [] {
        var w := next[0];
        if Le(w.departTime, currTime) {
          BoardAt(w);
        }
        next := next[1..];
      }
      next := next + [rs];
    }

    /**
     * check_plan: the main loop, then the stop still waiting boards, unless it departs after
     * the final time; then it is cut there. Returns that stop as it is left.
     */
    method CheckPlan(done: seq<RouteStop>, finalTime: Option<TimeImpl>) returns (last: Option<RouteStop>)
      requires KnownBuses(Current(), done)
      modifies this
      ensures Current() == CheckPlanSpec(old(Current()), done, finalTime)
      ensures busDelay == old(busDelay) && routes == old(routes)
      ensures last == if done == [] then None else Some(FinalStop(done[|done| - 1], finalTime))
    {
      var waiting := ReplayStops(done);
      if waiting == [] {
        return None;
      }
      var w := waiting[0];
      match finalTime
      case Some(t) =>
        if Le(w.departTime, t) {
          BoardAt(w);
          last := Some(w);
        } else {
          last := Some(w.(departTime := t, pickUp := {}));
        }
      case None =>
        BoardAt(w);
        last := Some(w);
    }

    /** The executor's whole state. */
    function State(): ExecState
      reads this
    {
      ExecState(Current(), busDelay, routes)
    }

    /** The route stops of all routes, route after route. */
    method FlattenRoutes(cur: seq<Route>) returns (all: seq<RouteStop>)
      ensures all == Flatten(cur)
    {
      all := [];
      for i := 0 to |cur|
        invariant all == Flatten(cur[..i])
      {
        assert cur[..i + 1][..i] == cur[..i];
        all := all + cur[i].stopList;
      }
      assert cur[..|cur|] == cur;
    }

    /** Appends the route stops of each current route to the stored route at its place. */
    method AppendRoutes(cur: seq<Route>) returns (r: Result<()>)
      modifies this
      ensures r.Success? <==> |cur| <= |old(routes)|
      ensures r.Failure? ==> r.error == OutOfRange
      ensures r.Success? ==> routes == AppendedRoutes(old(routes), cur)
      ensures Current() == old(Current()) && busDelay == old(busDelay)
    {
      ghost var r0 := routes;
      for k := 0 to |cur|
        invariant |routes| == |r0| && k <= |r0|
        invariant forall i :: 0 <= i < |r0| ==>
                    routes[i] == if i < k then Route(r0[i].bus, r0[i].stopList + cur[i].stopList) else r0[i]
        invariant Current() == old(Current()) && busDelay == old(busDelay)
      {
        if k >= |routes| {
          return Failure(OutOfRange);
        }
        routes := routes[k := Route(routes[k].bus, routes[k].stopList + cur[k].stopList)];
      }
      return Success(());
    }

    /**
     * The inner loop of execute_plan on the route stops `stops` of the current route `k`: while
     * the next stop arrives before `t` it is done and appended to the stored route `k`, one at
     * a time. Reaching a stored route that does not exist, or running past the last stop,
     * fails. Returns the stops done and how many were taken.
     */
    method CommitLeading(k: nat, stops: seq<RouteStop>, t: TimeImpl, done0: seq<RouteStop>)
      returns (res: Result<seq<RouteStop>>, counter: nat)
      modifies this
      ensures var c := LeadingBefore(stops, t);
              (res.Failure? <==> c > 0 && (k >= |old(routes)| || c == |stops|)) &&
              (res.Failure? ==> res.error == OutOfRange) &&
              (res.Success? ==>
                counter == c && res.value == done0 + stops[..c] &&
                routes == (if c > 0 then old(routes)[k := Route(old(routes)[k].bus, old(routes)[k].stopList + stops[..c])]
                           else old(routes)))
      ensures busDelay == old(busDelay) && Current() == old(Current())
    {
      ghost var c := LeadingBefore(stops, t);
      var done := done0;
      var timeCount: TimeImpl;
      if |stops| > 0 {
        timeCount := stops[0].arrivTime;
      }
      counter := 0;
      while counter < |stops| && Lt(timeCount, t)
        invariant counter <= c && (counter == 0 || counter < |stops|)
        invariant counter < |stops| ==> timeCount == stops[counter].arrivTime
        invariant done == done0 + stops[..counter]
        invariant counter == 0 ==> routes == old(routes)
        invariant counter > 0 ==> (k < |old(routes)| &&
                    routes == old(routes)[k := Route(old(routes)[k].bus, old(routes)[k].stopList + stops[..counter])])
        invariant busDelay == old(busDelay) && Current() == old(Current())
        decreases |stops| - counter
      {
        assert stops[..counter + 1] == stops[..counter] + [stops[counter]];
        done := done + [stops[counter]];
        if k >= |routes| {
          return Failure(OutOfRange), counter;
        }
        ghost var base := old(routes)[k];
        assert routes[k] == Route(base.bus, base.stopList + stops[..counter]);
        assert base.stopList + stops[..counter + 1] == (base.stopList + stops[..counter]) + [stops[counter]];
        routes := routes[k := Route(routes[k].bus, routes[k].stopList + [stops[counter]])];
        assert routes == old(routes)[k := Route(base.bus, base.stopList + stops[..counter + 1])];
        counter := counter + 1;
        if counter >= |stops| {
          return Failure(OutOfRange), counter;
        }
        timeCount := stops[counter].arrivTime;
      }
      return Success(done), counter;
    }

    /**
     * Commits the current route `r` at position `k`: its stops arriving before `t` are done,
     * then the first one that does not sets the delay of its bus. Returns the stops done.
     */
    method CommitRouteAt(k: nat, r: Route, t: TimeImpl, done0: seq<RouteStop>) returns (res: Result<seq<RouteStop>>)
      modifies this
      ensures var e := CommitRoute(Commit(old(routes), old(busDelay), done0), r, k, t);
              (res.Success? <==> e.Success?) && (e.Failure? ==> res == Failure(e.error)) &&
              (e.Success? ==> res.value == e.value.done && routes == e.value.routes && busDelay == e.value.delay)
      ensures Current() == old(Current())
    {
      var stops := r.stopList;
      var done, counter := CommitLeading(k, stops, t, done0);
      if done.Failure? {
        return done;
      }
      if counter < |stops| {
        var d := SubTimes(stops[counter].arrivTime, t);
        if d.Failure? {
          return Failure(d.error);
        }
        busDelay := busDelay[r.bus := d.value];
      }
      return done;
    }

    /** Commits the current routes in order; the route stops done are returned. */
    method CommitRoutes(cur: seq<Route>, t: TimeImpl) returns (res: Result<seq<RouteStop>>)
      modifies this
      ensures var e := CommitFrom(Commit(old(routes), old(busDelay), []), cur, 0, t);
              (res.Success? <==> e.Success?) && (e.Failure? ==> res == Failure(e.error)) &&
              (e.Success? ==> res.value == e.value.done && routes == e.value.routes && busDelay == e.value.delay)
      ensures Current() == old(Current())
    {
      var done := [];
      for k := 0 to |cur|
        invariant CommitFrom(Commit(routes, busDelay, done), cur, k, t) ==
                  CommitFrom(Commit(old(routes), old(busDelay), []), cur, 0, t)
        invariant Current() == old(Current())
      {
        var step := CommitRouteAt(k, cur[k], t, done);
        if step.Failure? {
          return Failure(step.error);
        }
        done := step.value;
      }
      return Success(done);
    }

    /**
     * execute_plan: orders the current routes by bus id; without a next time appends them
     * whole and replays all their stops by arrival, with one commits the stops before it and
     * replays those by arrival.
     */
    method ExecutePlan(currRoutes: seq<Route>, timeNext: Option<TimeImpl>) returns (r: Result<()>)
      requires KnownRoutes(Current(), currRoutes)
      modifies this
      ensures var e := ExecuteSpec(old(State()), currRoutes, timeNext);
              (r.Success? <==> e.Success?) && (e.Failure? ==> r == Failure(e.error)) &&
              (e.Success? ==> State() == e.value)
    {
      var cur := SortBy(currRoutes, BusKey);
      KnownSortedRoutes(Current(), currRoutes);
      match timeNext
      case None =>
        var appended := AppendRoutes(cur);
        if appended.Failure? {
          return appended;
        }
        var all := FlattenRoutes(cur);
        var sorted := SortBy(all, ArrivalKey);
        KnownSortedStops(Current(), cur, all);
        var _ := CheckPlan(sorted, None);
        return Success(());
      case Some(t) =>
        ghost var st := Commit(routes, busDelay, []);
        var done := CommitRoutes(cur, t);
        if done.Failure? {
          return Failure(done.error);
        }
        CommittedFromRoutes(cur, t, st);
        var sorted := SortBy(done.value, ArrivalKey);
        KnownSortedStops(Current(), cur, done.value);
        var _ := CheckPlan(sorted, None);
        return Success(());
    }
  }
}
