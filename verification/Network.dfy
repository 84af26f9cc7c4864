/**
 * The plain records the planner passes around: stops, lines, buses, trip requests, their
 * single-line legs ("split requests") and the route stops of a plan. They hold no logic.
 */
module Network {
  import opened Timer

  /** A fixed physical location; the coordinates only feed the distance function. */
  datatype Stop = Stop(id: int, x: int, y: int)

  /** An ordered path of stops served from a depot, with seat capacity and service hours. */
  datatype Line = Line(id: int, stops: seq<Stop>, depot: Stop, capacity: int,
                       startTime: TimeImpl, endTime: TimeImpl)

  datatype Bus = Bus(id: int, capacity: int, line: Line, depot: Stop)

  /**
   * One single-line leg of an itinerary. `id` is the id of the parent request, shared by all
   * its legs; `splitId` tells legs apart. The four times are the leg's own window.
   */
  datatype Leg = Leg(id: int, splitId: int, pickUp: Stop, dropOff: Stop, line: Line,
                     earlStart: TimeImpl, latestStart: TimeImpl,
                     earlArr: TimeImpl, latestArr: TimeImpl)

  /** One itinerary option of a request: its key in the request's option table and its legs. */
  datatype RouteOption = RouteOption(key: int, legs: seq<Leg>)

  datatype Request = Request(id: int, pickUp: Stop, dropOff: Stop,
                             earlStart: TimeImpl, latestStart: TimeImpl, latestArr: TimeImpl,
                             numbTransfer: int, options: seq<RouteOption>)

  /** A visit of a bus to a stop, with the requests boarding and alighting there. */
  datatype RouteStop = RouteStop(stop: Stop, arrivTime: TimeImpl, departTime: TimeImpl,
                                 pickUp: set<Request>, dropOff: set<Request>, bus: Bus)

  datatype Route = Route(bus: Bus, stopList: seq<RouteStop>)
}
