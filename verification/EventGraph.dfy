/**
 * The event graph the constraint model is built over, as the model builder uses it. An event
 * is a line's idle (depot) event, or a pick-up or drop-off of one leg (its `first` leg) made
 * together with a set of other legs on board.
 */
module EventGraph {
  import opened Network

  datatype Event =
    | IdleEvent(line: Line)
    | PickUpEvent(first: Leg, members: set<Leg>)
    | DropOffEvent(first: Leg, members: set<Leg>)

  /** Where the bus is at the event: the depot for idle, else the leg's pick-up or drop-off stop. */
  function Location(e: Event): Stop
  {
    match e
    case IdleEvent(line) => line.depot
    case PickUpEvent(first, _) => first.pickUp
    case DropOffEvent(first, _) => first.dropOff
  }

  /** The in- and out-neighbours of an event (edge_dict[e][0] and edge_dict[e][1]). */
  datatype Adjacency = Adjacency(inbound: seq<Event>, outbound: seq<Event>)

  /** The pick-up and drop-off events of a leg (request_dict[leg][0] and [1]). */
  datatype LegEvents = LegEvents(pickUps: seq<Event>, dropOffs: seq<Event>)

  /**
   * edge_dict and request_dict, with the order their keys were inserted in (the order Python
   * iterates a dict in). The arc (a, b) exists when b is among a's outbound events.
   */
  datatype Graph = Graph(edgeDict: map<Event, Adjacency>, eventOrder: seq<Event>,
                         requestDict: map<Leg, LegEvents>, legOrder: seq<Leg>)

  /** The key orders list each key of the two dictionaries exactly once. */
  ghost predicate KeysListed(g: Graph)
  {
    (forall i, j :: 0 <= i < j < |g.eventOrder| ==> g.eventOrder[i] != g.eventOrder[j]) &&
    (forall e :: e in g.eventOrder <==> e in g.edgeDict) &&
    (forall i, j :: 0 <= i < j < |g.legOrder| ==> g.legOrder[i] != g.legOrder[j]) &&
    (forall l :: l in g.legOrder <==> l in g.requestDict)
  }

  /** Every event named in an adjacency list or in a leg's event lists is a key of edge_dict. */
  predicate Closed(g: Graph)
  {
    (forall e, f :: e in g.edgeDict && f in g.edgeDict[e].inbound ==> f in g.edgeDict) &&
    (forall e, f :: e in g.edgeDict && f in g.edgeDict[e].outbound ==> f in g.edgeDict) &&
    (forall l, e :: l in g.requestDict && e in g.requestDict[l].pickUps ==> e in g.edgeDict) &&
    (forall l, e :: l in g.requestDict && e in g.requestDict[l].dropOffs ==> e in g.edgeDict)
  }
}
