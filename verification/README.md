# liDARP planning core in Dafny

This project models the planning core of liDARP, a dial-a-ride planner for line-based
on-demand buses, and proves properties of that model. Buses serve fixed lines of stops.
A trip request is split into single-line legs ("split requests"). The planner finds
candidate itineraries and builds an event-based mixed-integer model of the tours. It then
decodes a solution into bus routes and replays the routes in an executor that keeps the
books of passengers, waiting riders and bus locations.

The modules follow the source files:

- `Timer`: the clock-time value `TimeImpl`, its minute-total arithmetic and comparisons,
  the duration/distance conversions, and the parsing of `hh:mm:ss` strings
  (src/utils/helper/Timer.py).
- `Network`: the plain records for stops, lines, buses, requests, legs, route stops and
  routes.
- `PriorityQueue`: the bucket priority queue, as a class whose `pop` and `replace` update
  its dictionaries in place (src/utils/helper/PriorityQueue.py).
- `LineGraph`: edges between consecutive stops, merging of parallel edges, and adjacency
  lists (src/utils/helper/LineGraph.py).
- `Helper`: three parts of src/utils/helper/Helper.py.
  - The transfer-penalised label-setting search `calc_fastest`, over the priority queue.
  - The bounded depth-first enumeration of leg chains `rec_dfs`, together with
    `find_split_requests`.
  - `calc_time_multi`, and the `datetime` twins of the clock conversions.
- `Sorting`: Python's stable `list.sort(key=...)`, used by the executor.
- `EventGraph`: the event graph that the constraint model and the decoder read. It has
  pick-up, drop-off and idle events, `edge_dict` and `request_dict`.
- `EventBasedMILP`:
  - `check_on_route`;
  - the sweep-line candidate search in its spatial and temporal forms, and the
    aggregation of the two;
  - `line_max`;
  - `get_permutations` (src/main/plan/EventBasedMILP.py).
- `TimeConstraints`: the absolute and relative time-variable encodings and their Big-M
  (src/main/plan/TimeConstraints.py).
- `CplexModel`: `build_model` as a list of variable declarations, an objective and linear
  rows, without a solver (src/main/plan/CplexModel.py:23-260). A solution is a map from
  variables to reals, and each family of rows is proved to mean what it says under a
  solution.
- `CplexDecode`: `convert_to_plan`, the walk that decodes a solution map into one route
  per bus (src/main/plan/CplexModel.py:299-396).
- `Executor`: the executor class with `check_plan` and `execute_plan`
  (src/main/scope/Executor.py).

Loops of the source that update state are `method`s with loop invariants, each proved
against a specification function. Code made of expressions and recursion is modelled as
functions and lemmas. Three classes keep the source's in-place state:

- the priority queue;
- the line graph;
- the executor.

Distances and travel times are abstract function parameters (`dist`, `dur`). So are the
solver's solution values (`val`), the feasibility test of `get_permutations`
(`isFeasible`) and the iteration orders of Python sets and dictionaries (given sequences).
Failures that the source raises as exceptions (`KeyError`, `IndexError`, `ValueError`,
`StopIteration`, `AttributeError`, `TypeError`) are `Failure` results carrying the
exception's name.

Where a constructor signature or a field name in the record files disagrees with the code
that uses it, the model follows the code of the core files (see "## Left out").

## Model

| member | source | states |
|---|---|---|
| Timer.RoundHalfEven | src/utils/helper/Timer.py:11 | Python's round lies within half a unit of its argument and breaks ties towards the even neighbour |
| Timer.ConvertToTime | src/utils/helper/Timer.py:7-21 | convert_2_time gives second 0, a minute field in 0..59, and 60·hour + minute equal to the rounded duration |
| Timer.GetInMinutes | src/utils/helper/Timer.py:54-61 | with seconds in 0..59, get_in_minutes lies between 60·hour + minute and one minute more, and equals 60·hour + minute at second 0 |
| Timer.WholeMinutesRoundTrip | src/utils/helper/Timer.py:7-21 | a whole n ≥ 0 converts to (n div 60, n mod 60, 0), whose minute total is n again |
| Timer.HourOverflowIsAccepted | src/utils/helper/Timer.py:18-19 | the out-of-range error is never raised: 1440 minutes becomes hour 24 |
| Timer.ComparisonsAreTotalPreorder | src/utils/helper/Timer.py:74-107 | the six comparisons are reflexive, transitive and total, and each is the complement of its opposite |
| Timer.EqualityIgnoresFields | src/utils/helper/Timer.py:88-93 | equality compares minute totals, so 0:60:0 equals 1:0:0 although the fields differ |
| Timer.Add | src/utils/helper/Timer.py:63-65 | `+` gives a normalised time (second 0, minute 0..59) whose minute total is the rounded sum of the two minute totals |
| Timer.Sub | src/utils/helper/Timer.py:67-69 | `-` gives a normalised time whose minute total is the rounded difference of the two minute totals |
| Timer.AddMinutes | src/utils/helper/Timer.py:109-110 | add_minutes gives a normalised time whose minute total is the rounded minute total plus the minutes |
| Timer.SubMinutes | src/utils/helper/Timer.py:112-113 | sub_minutes gives a normalised time whose minute total is the rounded minute total minus the minutes |
| Timer.AddZeroMinutes | src/utils/helper/Timer.py:109-110 | adding zero minutes is the identity on a normalised time with second 0 |
| Timer.AddThenSubMinutes | src/utils/helper/Timer.py:109-113 | adding and then subtracting the same whole minutes gives back any normalised time |
| Timer.TimeDistanceRoundTrip | src/utils/helper/Timer.py:24-29 | conv_time_to_dist undoes calc_time for a non-zero average speed |
| Timer.Split | src/utils/helper/Timer.py:33 | str.split keeps every field between separators, and no field contains the separator |
| Timer.ConvStringToTime | src/utils/helper/Timer.py:32-35 | conv_string_2_Time succeeds only on exactly three ':'-separated fields |
| Timer.ConvStringToTimeFields | src/utils/helper/Timer.py:32-35 | three ':'-free fields give the time of the three integers int() reads from them, and the parse fails exactly when one field is not an integer |
| Timer.StringRoundTrip | src/utils/helper/Timer.py:32-35 | parsing the text form of any time gives back its fields |
| Timer.TwoFieldsRefused | src/utils/helper/Timer.py:34 | a string with two fields fails the assertion |
| PriorityQueue.BelowIsTotalOrder | src/utils/helper/PriorityQueue.py:19 | the order on priorities, with infinity on top, is a total order |
| PriorityQueue.Without | src/utils/helper/PriorityQueue.py:24 | list.remove of an element drops it, keeps every other element, and keeps a repeat-free list repeat-free |
| PriorityQueue.PopKeepsConsistent | src/utils/helper/PriorityQueue.py:23-26 | taking the head of the lowest bucket, and deleting that bucket if it becomes empty, keeps a node in bucket p exactly when its priority is p |
| PriorityQueue.RemoveKeepsConsistent | src/utils/helper/PriorityQueue.py:36-39 | taking a node out of its bucket, and deleting that bucket if it becomes empty, keeps the buckets consistent for the other nodes |
| PriorityQueue.AddKeepsConsistent | src/utils/helper/PriorityQueue.py:41-44 | adding a node to the bucket of its new priority, creating the bucket if needed, keeps the buckets consistent |
| PriorityQueue.MoveKeepsConsistent | src/utils/helper/PriorityQueue.py:36-44 | moving a node between buckets keeps every node in exactly the bucket of its priority |
| PriorityQueue.MoveToFinal | src/utils/helper/PriorityQueue.py:28 | moving the popped node from the queue to the final values leaves one queued node fewer, and queued and final nodes stay disjoint and together all nodes |
| PriorityQueue.Plus | src/utils/helper/Helper.py:57-61 | adding a non-negative duration never lowers a priority, and infinity absorbs it |
| PriorityQueue.PriorityQueue.constructor | src/utils/helper/PriorityQueue.py:8-15 | every node starts at infinity in one bucket in the given order, and nothing is final |
| PriorityQueue.PriorityQueue.MinPriority | src/utils/helper/PriorityQueue.py:18-19 | the result is a bucket key no larger than any other bucket key |
| PriorityQueue.PriorityQueue.Pop | src/utils/helper/PriorityQueue.py:17-30 | pop returns a queued node of minimal priority and that priority, removes exactly that node, records it as final, and keeps the invariant |
| PriorityQueue.PriorityQueue.Replace | src/utils/helper/PriorityQueue.py:32-44 | replace gives the queued node its new priority, moves it to that bucket, and changes nothing else |
| PriorityQueue.PriorityQueue.GetPriority | src/utils/helper/PriorityQueue.py:46-47 | get_priority is None exactly for nodes already popped |
| PriorityQueue.PriorityQueue.IsEmpty | src/utils/helper/PriorityQueue.py:49-53 | is_empty holds exactly when no node is left to pop |
| LineGraph.ContainsStop | src/utils/helper/LineGraph.py:51-55 | contains_stop holds exactly for the two endpoints |
| LineGraph.GetNeighbour | src/utils/helper/LineGraph.py:57-63 | get_neighbour gives the other endpoint of an endpoint, and None for any other stop |
| LineGraph.NeighbourOfNeighbour | src/utils/helper/LineGraph.py:57-63 | each endpoint is the other's neighbour |
| LineGraph.EqualityIgnoresOrientation | src/utils/helper/LineGraph.py:65-74 | for edges that are not loops, equality is equality of the unordered endpoint pairs |
| LineGraph.LoopEdgeEqualsNeighbouringEdge | src/utils/helper/LineGraph.py:65-74 | a loop edge (a, a) compares equal to (a, b) although the two hash differently |
| LineGraph.GetNodes | src/utils/helper/LineGraph.py:12-17 | get_nodes is exactly the union of the stops of every bus's line |
| LineGraph.Segments | src/utils/helper/LineGraph.py:23-24 | a line of n stops gives n - 1 edges, the i-th joining stops i and i + 1 and carrying that line |
| LineGraph.FoundEdgesAreSegments | src/utils/helper/LineGraph.py:21-24 | every edge found joins two consecutive stops of some line and carries exactly that line |
| LineGraph.SegmentsAreFound | src/utils/helper/LineGraph.py:21-24 | every consecutive stop pair of every line gives a found edge |
| LineGraph.KeysInOrder | src/utils/helper/LineGraph.py:26-34 | the dictionary keys are the distinct endpoint pairs of the edges, in order of first occurrence |
| LineGraph.Bucket | src/utils/helper/LineGraph.py:26-31 | a hash_dict entry holds exactly the edges with that endpoint pair, in order |
| LineGraph.UnionLines | src/utils/helper/LineGraph.py:37-38 | the merged line set is exactly the union of the line sets of a bucket's edges |
| LineGraph.MergeAll | src/utils/helper/LineGraph.py:33-39 | one merged edge per listed endpoint pair |
| LineGraph.MergeAllAt | src/utils/helper/LineGraph.py:34-39 | the i-th merged edge comes from the non-empty bucket of the i-th pair |
| LineGraph.MergeEdges | src/utils/helper/LineGraph.py:33-41 | the result has one edge per distinct endpoint pair |
| LineGraph.MergedEdgeAt | src/utils/helper/LineGraph.py:34-39 | the i-th merged edge has the i-th endpoint pair and comes from a found edge with that pair |
| LineGraph.MergedKeysDistinct | src/utils/helper/LineGraph.py:26-41 | no two merged edges have the same unordered endpoint pair |
| LineGraph.FoundEdgeRepresented | src/utils/helper/LineGraph.py:26-41 | every found edge is represented by a merged edge with its pair, and that edge carries the found edge's lines |
| LineGraph.MergedLinesExact | src/utils/helper/LineGraph.py:37-39 | a merged edge carries a line exactly when some found edge with its pair does |
| LineGraph.MergeParallelPair | src/utils/helper/LineGraph.py:37-38 | two parallel edges merge into one edge carrying the union of their lines |
| LineGraph.FoundEdgesOfTwoShortLines | src/utils/helper/LineGraph.py:22-24 | two two-stop lines give their two single-line edges |
| LineGraph.SharedSegmentFailsAsWritten | src/utils/helper/LineGraph.py:38 | as written, two lines sharing a segment make get_edges fail, while merging gives one edge |
| LineGraph.AsWrittenAgreesWithoutParallelEdges | src/utils/helper/LineGraph.py:20-41 | without parallel edges the code as written succeeds and returns the found edges |
| LineGraph.KeysDistinctCount | src/utils/helper/LineGraph.py:26-34 | without parallel edges there are as many keys as edges |
| LineGraph.LineSegments | src/utils/helper/LineGraph.py:23-24 | the inner loop of get_edges builds the segments of one line |
| LineGraph.CollectFoundEdges | src/utils/helper/LineGraph.py:21-24 | the first loop of get_edges builds the found edges of all lines |
| LineGraph.GroupNewKey | src/utils/helper/LineGraph.py:28-29 | a new pair gets a one-edge bucket and goes last in the key order |
| LineGraph.GroupOldKey | src/utils/helper/LineGraph.py:30-31 | a known pair's bucket gets the edge appended, and the key order is unchanged |
| LineGraph.GroupByKey | src/utils/helper/LineGraph.py:26-31 | the grouping loop leaves the keys in first-occurrence order, with each bucket holding exactly that pair's edges |
| LineGraph.UnionOfBucket | src/utils/helper/LineGraph.py:35-38 | the merge loop computes the union of a bucket's line sets |
| LineGraph.GetEdges | src/utils/helper/LineGraph.py:20-41 | get_edges, with parallel edges merged by union, returns one edge per endpoint pair carrying the lines of its duplicates |
| LineGraph.Adjacent | src/utils/helper/LineGraph.py:83-89 | a node's adjacency list holds exactly the edges touching it, in edge order |
| LineGraph.EdgeInBothLists | src/utils/helper/LineGraph.py:87-89 | each edge is in the adjacency lists of both its endpoints |
| LineGraph.AdjacentMembers | src/utils/helper/LineGraph.py:87-89 | an edge is in a node's adjacency list exactly when it is an edge touching that node |
| LineGraph.IterationOrder | src/utils/helper/LineGraph.py:22 | iterating a set visits each element exactly once |
| LineGraph.EndpointsAreNodes | src/utils/helper/LineGraph.py:79-89 | the merged edges join stops of the buses' lines |
| LineGraph.BuildAdjacency | src/utils/helper/LineGraph.py:83-89 | graph_dict has an entry per node, and each entry is that node's adjacency list |
| LineGraph.AddEdge | src/utils/helper/LineGraph.py:87-89 | one iteration appends the edge to both endpoints' lists, so each list is the node's adjacency list over one more edge |
| LineGraph.LineGraph.constructor | src/utils/helper/LineGraph.py:78-89 | the graph's nodes are the stops of all bus lines, its edges are the merged edges of those lines, each iterated once, and its adjacency lists are consistent |
| LineGraph.LineGraph.NodeSet | src/utils/helper/LineGraph.py:91-92 | every edge's endpoints are nodes |
| LineGraph.LineGraph.EdgesOfNode | src/utils/helper/LineGraph.py:97-98 | get_edges_of_node gives the edges touching a node of the graph |
| Helper.IndexOf | src/utils/helper/Helper.py:157-158 | list.index gives the first position of a stop, and fails exactly when the stop is absent |
| Helper.SegmentSumSplit | src/utils/helper/Helper.py:166-170 | segment sums add up over adjacent index ranges |
| Helper.SegmentSumNonNegative | src/utils/helper/Helper.py:166-170 | with non-negative segment times the sum is non-negative and grows with the range |
| Helper.TimeBetween | src/utils/helper/Helper.py:156-170 | the result is None exactly when a stop is off the line; otherwise it is the segment sum between the first positions |
| Helper.TimeBetweenSymmetric | src/utils/helper/Helper.py:156-170 | calc_time_multi is symmetric in its stops and is 0 from a stop to itself |
| Helper.TimeBetweenAdds | src/utils/helper/Helper.py:166-170 | passing an intermediate stop, the times to it and from it add up |
| Helper.CalcTimeMulti | src/utils/helper/Helper.py:156-170 | the accumulating loop computes the segment sum between the two stops |
| Helper.ConvertToClock | src/utils/helper/Helper.py:82-96 | convert_2_time succeeds exactly when the rounded minutes are in 0..1439, with the hour and minute of that total |
| Helper.ClockRoundTrip | src/utils/helper/Helper.py:82-106 | for whole n in 0..1439, convert_2_minutes undoes convert_2_time |
| Helper.SecondsAreMinutes | src/utils/helper/Helper.py:109-126 | the seconds total that add_times and sub_times divide by 60 is the sum of the minute totals |
| Helper.AddTimes | src/utils/helper/Helper.py:109-116 | add_times succeeds exactly when the rounded minute sum is within a day, and then gives that clock |
| Helper.SubTimes | src/utils/helper/Helper.py:119-126 | sub_times succeeds exactly when the rounded minute difference is within a day, and then gives that clock |
| Helper.SubTimesOfLaterFails | src/utils/helper/Helper.py:119-126 | subtracting a clock more than half a minute later is an error, and a clock minus itself is midnight |
| Helper.AddMidnight | src/utils/helper/Helper.py:109-116 | adding midnight to a clock with second 0 gives it back |
| Helper.Relax | src/utils/helper/Helper.py:56-63 | staying on a shared line keeps the intersection of lines and adds the duration; a change of line adds TRANSFER_MINUTES and one transfer |
| Helper.Improves | src/utils/helper/Helper.py:66 | a label is replaced only when strictly shorter, or as short with fewer transfers |
| Helper.RelaxKeepsLabelOk | src/utils/helper/Helper.py:56-63 | relaxing out of a well-labelled stop proposes a well-labelled candidate |
| Helper.AcceptKeepsInvariants | src/utils/helper/Helper.py:66-68 | accepting an improving candidate keeps the search invariants |
| Helper.RelaxNeighbours | src/utils/helper/Helper.py:51-68 | the inner loop touches only queued neighbours, never raises a priority, and leaves settled stops alone |
| Helper.RelaxEdge | src/utils/helper/Helper.py:52-68 | relaxing one edge keeps the search invariants, never raises a priority, and leaves settled stops and their labels alone |
| Helper.PopStep | src/utils/helper/Helper.py:50 | the first stop popped is the pick-up, and every settled value is at most the one popped |
| Helper.RelaxStep | src/utils/helper/Helper.py:51-68 | after relaxing, the invariant between pops holds again |
| Helper.PopMinimal | src/utils/helper/Helper.py:50 | the pop removes one stop and settles it at a value no settled value exceeds; the first pop is the pick-up, and the labels stay consistent |
| Helper.StartSearch | src/utils/helper/Helper.py:37-47 | every node is queued at infinity with no lines, except the pick-up, which gets TRANSFER_MINUTES, one transfer and its lines |
| Helper.SettleNext | src/utils/helper/Helper.py:49-68 | one round pops a minimal stop, settles it and relaxes its edges, keeping the invariants |
| Helper.SearchRound | src/utils/helper/Helper.py:49-68 | one round of the while loop keeps the invariants, shrinks the queue, and gives the two tests of the loop condition for the new state |
| Helper.CalcFastest | src/utils/helper/Helper.py:35-70 | calc_fastest fails exactly for a pick-up or drop-off off the graph; otherwise it returns the drop-off's settled value, which no settled value exceeds, with a consistent transfer count, and TRANSFER_MINUTES with one transfer from a stop to itself |
| Helper.Successors | src/utils/helper/Helper.py:142-144 | the successors are exactly the entries that start at the last leg's end, change line and end outside the visited stops |
| Helper.Extend | src/utils/helper/Helper.py:136-137 | each open list gets the entry appended |
| Helper.RecDfsPrunes | src/utils/helper/Helper.py:133-134 | rec_dfs returns nothing past the hop bound or the time budget |
| Helper.RecDfsSound | src/utils/helper/Helper.py:130-153 | every itinerary is the open list followed by an accepted chain, which ends at the target |
| Helper.DfsAllSound | src/utils/helper/Helper.py:147-153 | each itinerary of the successor loop continues the open list with one of the successors |
| Helper.RecDfsComplete | src/utils/helper/Helper.py:130-153 | every accepted chain after the open list is among the itineraries |
| Helper.DfsAllComplete | src/utils/helper/Helper.py:147-153 | the successor loop misses no accepted chain |
| Helper.ChainLength | src/utils/helper/Helper.py:133-149 | an accepted chain starting from transfer count t has at most maxHop - t + 1 legs |
| Helper.TransferPoints | src/utils/helper/Helper.py:186-192 | the transfer points of a line are exactly its stops shared with another line |
| Helper.FindKey | src/utils/helper/Helper.py:211 | a dictionary lookup finds an entry with an equal key, and fails exactly when there is none |
| Helper.DictPut | src/utils/helper/Helper.py:211-212 | assigning a key keeps every key and one entry per stop pair, changes only the entry with an equal pair, and gives that pair the new leg |
| Helper.StartsAt | src/utils/helper/Helper.py:237 | the start entries are exactly the entries whose key starts at the pick-up |
| Helper.SearchAllExact | src/utils/helper/Helper.py:236-242 | the itineraries found are exactly the accepted chains that begin with a start entry |
| Helper.FilledPut | src/utils/helper/Helper.py:205-206 | one more assignment to the dictionary extends the keys it was filled from by the assigned key: one entry per stop pair, keys and legs drawn from the keys put, every pair covered, and a key alone with its pair present exactly |
| Helper.PutTransferLeg | src/utils/helper/Helper.py:209-212 | the leg between a stop and a transfer point fails exactly when one of them is off the line; otherwise it is the assignment of its key, timed along the line, with its split request |
| Helper.PutPointLeg | src/utils/helper/Helper.py:208-212 | one more transfer point extends the legs put so far by that point's leg, or fails exactly when the stop or the point is off the line |
| Helper.PutTransferLegs | src/utils/helper/Helper.py:208-219 | the loop over the transfer points fills the dictionary from the legs to every point, and fails exactly when the stop or some point is off the line |
| Helper.PutStopLegs | src/utils/helper/Helper.py:186-219 | a stop on exactly one line gets a leg to (or from) every transfer point of that line, none otherwise; this fails exactly when the line has a transfer point but not the stop |
| Helper.PutDirectLeg | src/utils/helper/Helper.py:222-230 | when pick-up and drop-off each lie on one line and it is the same line, the direct leg is added; this fails exactly when one of them is off that line |
| Helper.PutNetworkEdges | src/utils/helper/Helper.py:203-206 | the dictionary starts filled from exactly the network's edges, each with the split request along its own line |
| Helper.BuildSplitDict | src/utils/helper/Helper.py:180-230 | the split-request dictionary is filled from exactly the network edges, the pick-up's and drop-off's transfer legs and the direct leg, and fails exactly when one of those legs has a stop off its line |
| Helper.SplitDictEntries | src/utils/helper/Helper.py:203-230 | every network edge, transfer leg and direct leg has an entry for its stop pair, and one whose pair no other key shares is present exactly, timed along its line, with its split request |
| Helper.SplitDictKeysOnly | src/utils/helper/Helper.py:203-230 | no other entry is present: each entry's split request has the request's id and joins its key's stops, and its key is of one of those four kinds |
| Helper.SplitKeyKinds | src/utils/helper/Helper.py:203-230 | every key put is a network edge, a transfer leg at the pick-up or drop-off, or the direct leg, each timed along its line |
| Helper.SearchStarts | src/utils/helper/Helper.py:236-244 | rec_dfs from every start entry finds exactly the accepted chains starting with such an entry |
| Helper.SearchFromStarts | src/utils/helper/Helper.py:236-244 | the searches from the start entries find exactly the accepted chains from the pick-up |
| Helper.FindSplitRequests | src/utils/helper/Helper.py:177-244 | find_split_requests fails for a stop off the graph or without edges, and otherwise exactly when the dictionary's legs fail; on success its dictionary is filled from exactly the network edges, transfer legs and direct leg of the lines at the pick-up and drop-off, and it returns the legs of exactly the accepted chains from the pick-up within the request's time budget and hop bound, each ending at the drop-off |
| EventBasedMILP.CheckOnRoute | src/main/plan/EventBasedMILP.py:16-29 | the check fails exactly for a stop off the leg's line, and holds when the stop's index lies between the two ends' indices, in either direction |
| EventBasedMILP.CheckOnRouteEndpoints | src/main/plan/EventBasedMILP.py:16-29 | a leg's own end stops are on its route |
| EventBasedMILP.CheckOnRouteReversed | src/main/plan/EventBasedMILP.py:23-27 | swapping pick-up and drop-off gives the same answer |
| EventBasedMILP.CheckOnRouteStretch | src/main/plan/EventBasedMILP.py:16-29 | on a line visiting each stop once, the check holds exactly for the stops of the stretch between the two ends |
| EventBasedMILP.CandidatesOf | src/main/plan/EventBasedMILP.py:40-49 | the candidates are the legs of the pool with a different parent id |
| EventBasedMILP.AddDropCandidates | src/main/plan/EventBasedMILP.py:39-42 | the deletion loop gives each leg ending here the active legs of other parents |
| EventBasedMILP.AddPickCandidates | src/main/plan/EventBasedMILP.py:46-49 | the insertion loop gives each leg starting here the pool of other parents |
| EventBasedMILP.IterateSweepLine | src/main/plan/EventBasedMILP.py:33-53 | the sweep loop computes the sweep specification, deletions before insertions at each point |
| EventBasedMILP.StatusClosedForm | src/main/plan/EventBasedMILP.py:38-51 | after t points, a leg is active exactly when its insertion point is passed and its deletion point is not |
| EventBasedMILP.DropSetAt | src/main/plan/EventBasedMILP.py:39-44 | the drop-off candidates at a point, in closed form |
| EventBasedMILP.PickSetAt | src/main/plan/EventBasedMILP.py:46-51 | the pick-up pool at a point is the active set after deletions plus the legs inserted there |
| EventBasedMILP.PointStepAt | src/main/plan/EventBasedMILP.py:38-51 | both steps of one point keep the output's keys and touch only the legs of that point |
| EventBasedMILP.SweepOutNext | src/main/plan/EventBasedMILP.py:38-51 | one more point changes only the candidates of the legs inserted or deleted there |
| EventBasedMILP.SweepPickStepAt | src/main/plan/EventBasedMILP.py:46-51 | at its insertion point a leg gets its pick-up candidates |
| EventBasedMILP.SweepDropStepAt | src/main/plan/EventBasedMILP.py:39-44 | at its deletion point a leg gets its drop-off candidates |
| EventBasedMILP.SweepStepAt | src/main/plan/EventBasedMILP.py:38-51 | one more point keeps a leg's candidates in closed form |
| EventBasedMILP.SweepClosedForm | src/main/plan/EventBasedMILP.py:33-53 | after t points a leg has its pick-up candidates once its insertion point is passed, and its drop-off candidates once its deletion point is passed |
| EventBasedMILP.SweepOverlap | src/main/plan/EventBasedMILP.py:32-53 | for legs that end after they start, the candidates are exactly the overlapping intervals of other parents |
| EventBasedMILP.QueueForAdd | src/main/plan/EventBasedMILP.py:60-62 | adding a leg puts it in the insertion set of its insertion point and the deletion set of its deletion point |
| EventBasedMILP.FillQueue | src/main/plan/EventBasedMILP.py:60-62 | filling the queue fails exactly when some leg's point is not a key |
| EventBasedMILP.Reversed | src/main/plan/EventBasedMILP.py:64-66 | list.reverse puts element i at position n - 1 - i |
| EventBasedMILP.EventPoints | src/main/plan/EventBasedMILP.py:64-66 | the event points are the line's stops, reversed when direction is 1 |
| EventBasedMILP.SweepLineLocal | src/main/plan/EventBasedMILP.py:56-68 | the spatial sweep fails exactly for a leg with a stop off the line, and otherwise is the sweep over the stops in direction order |
| EventBasedMILP.SweepLineTime | src/main/plan/EventBasedMILP.py:71-81 | the temporal sweep runs over the distinct time points in ascending order, inserting at the earliest start and deleting at the latest arrival |
| EventBasedMILP.QueueForIsQueueOf | src/main/plan/EventBasedMILP.py:58-62 | a filled queue over repeat-free points that are exactly its keys is a sweep queue |
| EventBasedMILP.FilledSweepOverlap | src/main/plan/EventBasedMILP.py:56-68 | the interval-overlap form holds for a filled queue |
| EventBasedMILP.LocalPickCandidates | src/main/plan/EventBasedMILP.py:56-68 | a spatial pick-up candidate of x is a leg of another parent that boards at or before x and leaves after x boards |
| EventBasedMILP.LocalDropCandidates | src/main/plan/EventBasedMILP.py:56-68 | a spatial drop-off candidate of x is a leg of another parent that boards before x leaves and leaves at or after it |
| EventBasedMILP.SortedPositions | src/main/plan/EventBasedMILP.py:80 | in time points sorted by minutes, an earlier time sits earlier |
| EventBasedMILP.PositionsFollowMinutes | src/main/plan/EventBasedMILP.py:80 | with distinct minute totals, positions follow the minutes |
| EventBasedMILP.TimePickCandidates | src/main/plan/EventBasedMILP.py:71-81 | a temporal pick-up candidate of x is a leg of another parent whose window opens no later and closes after x's opens |
| EventBasedMILP.TimeDropCandidates | src/main/plan/EventBasedMILP.py:71-81 | a temporal drop-off candidate of x is a leg of another parent whose window opens before x's closes and closes no earlier |
| EventBasedMILP.SweepOutKeys | src/main/plan/EventBasedMILP.py:35-36 | the sweep output has one entry per input leg |
| EventBasedMILP.AggregateCandidates | src/main/plan/EventBasedMILP.py:182-185 | the aggregation fails exactly for a leg missing from the temporal result, and otherwise intersects pick-up and drop-off candidates separately |
| EventBasedMILP.SweepsAggregate | src/main/plan/EventBasedMILP.py:176-185 | two sweeps over the same legs never miss a key |
| EventBasedMILP.MaxCapacity | src/main/plan/EventBasedMILP.py:88-91 | the largest capacity of a bus on the line, or 0 |
| EventBasedMILP.LineMax | src/main/plan/EventBasedMILP.py:88-91 | line_max has one entry per served line, and that entry is the line's maximum capacity |
| EventBasedMILP.RaiseLine | src/main/plan/EventBasedMILP.py:89-91 | one iteration raises the bus's line entry when its capacity is larger, so each entry is the maximum over one more bus |
| EventBasedMILP.NextFree | src/main/plan/EventBasedMILP.py:100-102 | the first candidate from the index on whose parent id is not yet taken |
| EventBasedMILP.PermChainStep | src/main/plan/EventBasedMILP.py:97-116 | a set that can grow is grown by the next free candidate, and the chain goes on from it |
| EventBasedMILP.SkipTaken | src/main/plan/EventBasedMILP.py:100-102 | the while loop stops at the next free candidate |
| EventBasedMILP.PermutationsFrom | src/main/plan/EventBasedMILP.py:94-118 | get_permutations returns the events of the capacity-bounded chain of feasible sets |
| EventBasedMILP.GetPermutations | src/main/plan/EventBasedMILP.py:94-118 | the call fails exactly for a line without buses (KeyError) |
| EventBasedMILP.PermChainNested | src/main/plan/EventBasedMILP.py:97-116 | the chain is nested, each set adds one leg, and no set exceeds the capacity |
| EventBasedMILP.PermChainFeasible | src/main/plan/EventBasedMILP.py:110-116 | every set of the chain passed the feasibility test |
| EventBasedMILP.AddNewId | src/main/plan/EventBasedMILP.py:100-108 | adding a leg with an untaken parent id keeps the ids distinct |
| EventBasedMILP.PermChainDistinctIds | src/main/plan/EventBasedMILP.py:99-108 | every set of the chain holds at most one leg per parent |
| EventBasedMILP.PermChainFrom | src/main/plan/EventBasedMILP.py:101-116 | what the chain adds comes from the candidates at or after the start index |
| TimeConstraints.Trunc | src/main/plan/TimeConstraints.py:28 | int() truncates toward zero |
| TimeConstraints.AddValue | src/main/plan/TimeConstraints.py:30-31 | the absolute offset is 0 |
| TimeConstraints.RelativeShiftIsAbsolute | src/main/plan/TimeConstraints.py:21-44 | relative bounds are 0 and the window width, and shifted by the offset they are the absolute bounds |
| TimeConstraints.RelativeWithinIffAbsolute | src/main/plan/TimeConstraints.py:34-44 | a relative value is within its bounds exactly when the value plus the offset is within the absolute bounds |
| TimeConstraints.RelativeBigMNonNegative | src/main/plan/TimeConstraints.py:46-54 | with valid windows and non-negative inputs the relative Big-M is non-negative |
| TimeConstraints.AbsoluteBigMIsEndTime | src/main/plan/TimeConstraints.py:27-28 | the absolute Big-M is the truncated minute total of the preceding line's end |
| TimeConstraints.RelativeRowOffWhenUnused | src/main/plan/TimeConstraints.py:46-54 | with every gating arc at 0, the relative sequencing row holds for all values within the bounds |
| TimeConstraints.RowOnWhenUsed | src/main/plan/CplexModel.py:211-221 | with one gating arc at 1, the row says the successor's clock time is at least the predecessor's plus the travel time plus the service time, in either encoding |
| CplexModel.FlowRowMeaning | src/main/plan/CplexModel.py:87-97 | a flow row holds exactly when as much flow enters the event as leaves it |
| CplexModel.AddFlowRows | src/main/plan/CplexModel.py:87-97 | one flow row per event of edge_dict, in key order |
| CplexModel.OptionRowMeaning | src/main/plan/CplexModel.py:99-112 | a coverage row holds exactly when the arcs into a leg's pick-up events sum to at least the option's z |
| CplexModel.OptionRowsCover | src/main/plan/CplexModel.py:99-112 | every leg of every option of every request has its coverage row |
| CplexModel.OptionRowsOfCover | src/main/plan/CplexModel.py:101-112 | every leg of every option of one request has its coverage row |
| CplexModel.AddOptionRowsOf | src/main/plan/CplexModel.py:101-112 | the option and leg loops of one request build its coverage rows |
| CplexModel.AddOptionRows | src/main/plan/CplexModel.py:99-112 | the request loop builds all coverage rows |
| CplexModel.BusCount | src/main/plan/CplexModel.py:116 | the number of buses on a line is at most the fleet size |
| CplexModel.FleetRowMeaning | src/main/plan/CplexModel.py:114-125 | a fleet row holds exactly when the arcs leaving the idle event sum to at most the line's number of buses |
| CplexModel.AddFleetRows | src/main/plan/CplexModel.py:114-125 | one fleet row per line |
| CplexModel.PutArcSpec | src/main/plan/CplexModel.py:136-139 | `var_dict[k] += [v]` appends to k's list, leaves the other keys alone and keeps the keys unique |
| CplexModel.PutAllSpec | src/main/plan/CplexModel.py:134-139 | after the filling loop, each key's list is its pairs' arcs in list order, and the keys are those of the pairs |
| CplexModel.ArrivalRowMeaning | src/main/plan/CplexModel.py:141-149 | an arrival row holds exactly when the arrival clock time plus the gated travel home is at most the line's end |
| CplexModel.StartRowMeaning | src/main/plan/CplexModel.py:158-166 | a start row holds exactly when the start clock time is at least the line's start plus the transfer minutes plus the gated travel from the depot |
| CplexModel.ArrivalRows | src/main/plan/CplexModel.py:141-149 | one arrival row per var_dict entry, in key order |
| CplexModel.StartRows | src/main/plan/CplexModel.py:158-166 | one start row per var_dict entry, in key order |
| CplexModel.DepotGroupsExact | src/main/plan/CplexModel.py:133-166 | with a fresh var_dict, a leg's start row is gated by exactly the arcs from idle to its events, and its arrival row by exactly its arcs into idle |
| CplexModel.DepotGroupsAsWritten | src/main/plan/CplexModel.py:152-156 | as written, a leg's start row is gated by its arcs into idle followed by its arcs out of idle |
| CplexModel.TourGroups | src/main/plan/CplexModel.py:129-166 | for one arc into and one out of idle, both of one leg, each var_dict has one entry |
| CplexModel.DepotStartRowCountsTravelTwice | src/main/plan/CplexModel.py:152-166 | on a plain tour starting as early as allowed, the intended start row holds while the as-written one demands the depot travel twice |
| CplexModel.AddDepotRowsOfLine | src/main/plan/CplexModel.py:129-166 | the depot loops of one line with a fresh var_dict for the outbound arcs |
| CplexModel.AddArrivalRows | src/main/plan/CplexModel.py:141-149 | the loop over var_dict builds the arrival rows |
| CplexModel.AddStartRows | src/main/plan/CplexModel.py:158-166 | the loop over var_dict builds the start rows |
| CplexModel.GroupInbound | src/main/plan/CplexModel.py:134-139 | the loop fills var_dict from the arcs into idle |
| CplexModel.GroupOutbound | src/main/plan/CplexModel.py:152-156 | the loop fills a var_dict from the arcs out of idle |
| CplexModel.AddDepotRows | src/main/plan/CplexModel.py:129-166 | the depot rows of every line |
| CplexModel.SeqRowMeaning | src/main/plan/CplexModel.py:188-221 | a sequencing row holds exactly when the sequencing inequality holds for the sum of its gating arcs |
| CplexModel.SeqRows | src/main/plan/CplexModel.py:188-221 | one sequencing row per var_dict entry, in key order |
| CplexModel.SuccPairsOfMembers | src/main/plan/CplexModel.py:175-186 | the pairs of an event are its arcs to leg events, keyed by the successor's leg and side; arcs to idle events are skipped |
| CplexModel.SuccPairsMembers | src/main/plan/CplexModel.py:174-186 | a side's pairs are arcs from one of its events to a leg event |
| CplexModel.MatchingMembers | src/main/plan/CplexModel.py:183-186 | a key collects exactly the arcs of its pairs |
| CplexModel.SideGroupsExact | src/main/plan/CplexModel.py:171-186 | a sequencing row is gated by exactly the arcs from the side's events to the key's events, and every such successor has a row |
| CplexModel.PutSuccessors | src/main/plan/CplexModel.py:175-186 | the loop over one event's outbound arcs fills var_dict |
| CplexModel.FillSideGroups | src/main/plan/CplexModel.py:172-186 | the loops over one side's events fill its var_dict |
| CplexModel.AddSeqRows | src/main/plan/CplexModel.py:188-221 | the loop over var_dict builds one side's sequencing rows |
| CplexModel.AddSequencingRows | src/main/plan/CplexModel.py:168-221 | the sequencing loop over the legs and their two sides |
| CplexModel.RideRowMeaning | src/main/plan/CplexModel.py:230-238 | a ride row holds exactly when the clock time from the first leg's start to the last leg's arrival is within the longest ride |
| CplexModel.ChainRowMeaning | src/main/plan/CplexModel.py:241-249 | a chaining row holds exactly when the later leg starts no earlier than the earlier leg arrives, in clock time |
| CplexModel.ChainRows | src/main/plan/CplexModel.py:241-249 | one chaining row per pair of subsequent legs |
| CplexModel.ZVars | src/main/plan/CplexModel.py:252 | one z per option key of the request |
| CplexModel.ZRowMeaning | src/main/plan/CplexModel.py:251-258 | the choice row holds exactly when the chosen options add up to the acceptance q |
| CplexModel.FoundIsEnds | src/main/plan/CplexModel.py:224-229 | found_tuples ends up holding the (first, last) pair of every option |
| CplexModel.RideRowsCountPairs | src/main/plan/CplexModel.py:223-238 | there are exactly as many ride rows as distinct (first, last) pairs |
| CplexModel.RideRowsPresent | src/main/plan/CplexModel.py:223-238 | every distinct (first, last) pair has its ride row |
| CplexModel.ChainRowsPresent | src/main/plan/CplexModel.py:240-249 | every pair of subsequent legs of every option has its chaining row |
| CplexModel.AddChainRows | src/main/plan/CplexModel.py:241-249 | the chaining loop of one option |
| CplexModel.AddRequestRows | src/main/plan/CplexModel.py:223-258 | the option loop of one request keeps found_tuples, then adds the choice row |
| CplexModel.AddAllRequestRows | src/main/plan/CplexModel.py:223-258 | the loop over the requests |
| CplexModel.QVars | src/main/plan/CplexModel.py:31 | one q per request |
| CplexModel.AllArcsExact | src/main/plan/CplexModel.py:49-52 | the arc variables are exactly the arcs of edge_dict |
| CplexModel.OptionVarsExact | src/main/plan/CplexModel.py:34-37 | the z variables are exactly the (request, option key) pairs |
| CplexModel.LegDeclsPresent | src/main/plan/CplexModel.py:39-43 | every leg gets B+ and B- with the bounds create_variables gives them |
| CplexModel.DeclareBinaries | src/main/plan/CplexModel.py:31-32 | the loop declares each variable binary, in order |
| CplexModel.DeclareOptionVars | src/main/plan/CplexModel.py:34-37 | the z loop declares a binary z per option key of each request |
| CplexModel.DeclareLegVars | src/main/plan/CplexModel.py:39-43 | the B loop over the keys of request_dict |
| CplexModel.DeclareArcVars | src/main/plan/CplexModel.py:49-52 | the x loop declares a binary x per arc |
| CplexModel.DeclareVariables | src/main/plan/CplexModel.py:28-52 | the variables are q, then z, then B, then x, in the order they are added |
| CplexModel.PenaltyNonNegative | src/main/plan/CplexModel.py:78-79 | the penalty is non-negative for a non-negative network size and 0 without requests or buses, so q's coefficient is at most 0 |
| CplexModel.ArcCostsOf | src/main/plan/CplexModel.py:80-83 | each arc out of an event is weighted by the distance between its endpoints |
| CplexModel.ArcCostsMatchArcs | src/main/plan/CplexModel.py:79-83 | the cost terms are over exactly the arc variables, in the same order |
| CplexModel.ObjectiveValue | src/main/plan/CplexModel.py:76-85 | the objective value is the q coefficient times the accepted requests plus the travelled distance |
| CplexModel.AddArcCostsOf | src/main/plan/CplexModel.py:81-83 | the inner objective loop weights each arc out of an event by its distance |
| CplexModel.BuildObjective | src/main/plan/CplexModel.py:76-85 | the objective loops give minus the penalty on each q, then each arc's distance on its x |
| CplexModel.BuildModel | src/main/plan/CplexModel.py:23-260 | build_model gives the variables, the objective and every row family, with the lines of the fleet iterated once |
| CplexModel.BuildRows | src/main/plan/CplexModel.py:87-258 | the row families in the order build_model adds them |
| CplexModel.SolutionConservesFlow | src/main/plan/CplexModel.py:87-97 | under a solution, flow is conserved at every event |
| CplexModel.SolutionRespectsFleet | src/main/plan/CplexModel.py:114-125 | under a solution, no more tours leave a depot than the line has buses |
| CplexModel.SolutionCoversOptions | src/main/plan/CplexModel.py:99-112 | under a solution, each leg of an option is reached at least as often as the option is chosen |
| CplexModel.SolutionChoosesOptions | src/main/plan/CplexModel.py:251-258 | under a solution, the chosen options of a request add up to its acceptance |
| CplexModel.SolutionBoundsRides | src/main/plan/CplexModel.py:230-238 | under a solution, every option's ride is within the longest ride |
| CplexModel.SolutionChainsLegs | src/main/plan/CplexModel.py:241-249 | under a solution, each leg starts no earlier than the previous leg arrives |
| CplexModel.SolutionRespectsDepots | src/main/plan/CplexModel.py:129-166 | under a solution, for a listed line the idle event is known, every leg leaving it starts no earlier than the line's start plus the transfer minutes plus the gated drive from the depot, and every leg coming back to it arrives early enough that the gated drive home ends by the line's end |
| CplexModel.StartRowGives | src/main/plan/CplexModel.py:158-166 | a start row that holds means the leg starts after the depot as above |
| CplexModel.ArrivalRowGives | src/main/plan/CplexModel.py:141-149 | an arrival row that holds means the leg is back before the line's end as above |
| CplexModel.DepotStartRowIn | src/main/plan/CplexModel.py:152-166 | a leg with an arc out of the idle event has its start row, gated by exactly those arcs, among the line's depot rows |
| CplexModel.DepotArrivalRowIn | src/main/plan/CplexModel.py:134-149 | a leg with an arc into the idle event has its arrival row, gated by exactly those arcs, among the line's depot rows |
| CplexModel.DepotRowsIn | src/main/plan/CplexModel.py:129-166 | the depot rows of a listed line are among the rows added for all lines |
| CplexModel.ArcsForAt | src/main/plan/CplexModel.py:135-139 | in a var_dict with distinct keys, the arcs found for a group's key are that group's arcs |
| CplexModel.SolutionSequences | src/main/plan/CplexModel.py:168-221 | under a solution, the sequencing inequality holds for every side and successor in var_dict |
| CplexDecode.Rounded | src/main/plan/CplexModel.py:317 | one rounded value per variable |
| CplexDecode.RoundedAt | src/main/plan/CplexModel.py:317 | each rounded value is the solution value rounded half to even, within half a unit |
| CplexDecode.IndexOfOne | src/main/plan/CplexModel.py:385 | list.index(1) gives a valid position |
| CplexDecode.IndexOfOneFirst | src/main/plan/CplexModel.py:384-385 | list.index(1) finds the first rounded 1, and fails exactly when there is none |
| CplexDecode.NthOne | src/main/plan/CplexModel.py:323-328 | the (i+1)-th one sits at a position holding 1 with exactly i ones before it |
| CplexDecode.NthOneUnique | src/main/plan/CplexModel.py:323-328 | a 1 preceded by exactly i ones is the (i+1)-th one |
| CplexDecode.NthOneIncreasing | src/main/plan/CplexModel.py:318-328 | later buses of a line take later idle arcs |
| CplexDecode.ScanIdleArcs | src/main/plan/CplexModel.py:323-328 | the counter/j scan finds an arc exactly when there are more than i ones, and then stops at the (i+1)-th one |
| CplexDecode.OptionZs | src/main/plan/CplexModel.py:344-346 | one z per option of the leg's parent |
| CplexDecode.NextEvent | src/main/plan/CplexModel.py:382-386 | the next event is an outbound neighbour along a one-valued arc |
| CplexDecode.TourEvents | src/main/plan/CplexModel.py:342-386 | a tour's events are not idle events, and there are at most fuel of them |
| CplexDecode.NoReturnVisits | src/main/plan/CplexModel.py:342-386 | a walk that runs out of fuel has visited that many leg events with graph entries, each followed by its first one-valued arc |
| CplexDecode.NoReturnRepeats | src/main/plan/CplexModel.py:342-386 | on a graph whose key order lists its events, running out of the fuel the model gives means some event was visited twice, so the source's loop would cycle forever |
| CplexDecode.WalkEnds | src/main/plan/CplexModel.py:342-393 | the walk ends at the line's idle event; another line's idle event or running out of fuel is a failure |
| CplexDecode.WalkStep | src/main/plan/CplexModel.py:342-386 | visiting an event and moving on leaves the outcome of the walk unchanged |
| CplexDecode.VisitNewStop | src/main/plan/CplexModel.py:351-367 | opening a route stop at a different location keeps the route's shape |
| CplexDecode.VisitSameStop | src/main/plan/CplexModel.py:368-378 | an event at the current location is merged into the current route stop, keeping the shape |
| CplexDecode.VisitKeeps | src/main/plan/CplexModel.py:348-378 | visiting an event keeps the route's shape |
| CplexDecode.VisitServes | src/main/plan/CplexModel.py:343-378 | visiting an event serves only requests with a chosen leg |
| CplexDecode.VisitAllKeeps | src/main/plan/CplexModel.py:342-386 | visiting events one after another keeps the shape |
| CplexDecode.VisitAllServes | src/main/plan/CplexModel.py:342-386 | visiting events one after another serves only chosen legs |
| CplexDecode.BusRouteShape | src/main/plan/CplexModel.py:318-393 | a decoded route starts at the depot at the line's start, ends at the depot at its end, has no two successive stops at one location, and serves only chosen legs |
| CplexDecode.ParkedWithoutArc | src/main/plan/CplexModel.py:329-332 | a bus gets the single parked stop exactly when no one-valued idle arc is left for it |
| CplexDecode.WalkTour | src/main/plan/CplexModel.py:342-386 | the walk loop computes the walk |
| CplexDecode.DecodeBus | src/main/plan/CplexModel.py:318-394 | the loop body for one bus computes its route |
| CplexDecode.BusesOf | src/main/plan/CplexModel.py:309 | the buses of a line are exactly the fleet's buses on it, in list order |
| CplexDecode.DecodeLine | src/main/plan/CplexModel.py:318-394 | the loop over a line's buses gives the i-th bus the line's i-th tour |
| CplexDecode.ConvertToPlan | src/main/plan/CplexModel.py:299-396 | convert_to_plan iterates the fleet's lines once each and decodes their buses |
| CplexDecode.LineRoutesPerBus | src/main/plan/CplexModel.py:318-394 | decoding a line gives one route per bus, in the buses' order |
| CplexDecode.PlanPerBus | src/main/plan/CplexModel.py:312-394 | decoding the lines gives one route per bus of those lines, line after line |
| CplexDecode.LinesBusesPermutation | src/main/plan/CplexModel.py:308-309 | the buses of distinct lines covering the fleet are the fleet, each bus once |
| CplexDecode.PlanCoversFleet | src/main/plan/CplexModel.py:308-396 | a successful decoding gives every bus of the fleet exactly one route |
| Sorting.SortBy | src/main/scope/Executor.py:93 | list.sort with a key gives a permutation sorted by the key |
| Sorting.SortByMembers | src/main/scope/Executor.py:93 | sorting keeps exactly the same elements |
| Sorting.SortByDistinct | src/main/scope/Executor.py:22 | sorting a repeat-free list keeps it repeat-free |
| Executor.InitialBooks | src/main/scope/Executor.py:14-19 | every bus starts empty at its depot, and nobody is waiting |
| Executor.EmptyRoutes | src/main/scope/Executor.py:20 | one empty route per bus, in the order of the buses |
| Executor.InitialRoutes | src/main/scope/Executor.py:20-22 | the initial routes are one empty route per bus, sorted by bus id |
| Executor.Arrive | src/main/scope/Executor.py:29-40 | the bus is at the stop; riders alighting leave it; those not at their trip's end wait there; the others get the arrival as end time |
| Executor.Board | src/main/scope/Executor.py:44-50 | the boarding riders join the bus and stop waiting; those boarding at their trip's start get the departure as start time |
| Executor.BoardAsWritten | src/main/scope/Executor.py:45 | as written, boarding fails exactly when a boarding rider is not waiting, and otherwise agrees with the corrected boarding |
| Executor.Replay | src/main/scope/Executor.py:26-53 | the main loop of check_plan keeps the fleet, arriving at each stop and boarding the previous one when it has departed |
| Executor.FinalStop | src/main/scope/Executor.py:55-68 | with a final time the last stop boards if it departs by then; otherwise its departure becomes the final time and its boardings are dropped |
| Executor.ReplayAsWritten | src/main/scope/Executor.py:26-53 | the main loop as written keeps the fleet when it succeeds |
| Executor.ReplaySingle | src/main/scope/Executor.py:26-53 | replaying one stop is arriving at it, and nobody boards yet |
| Executor.FirstBoardingFailsAsWritten | src/main/scope/Executor.py:45 | as written, a rider boarding at the start of their trip makes check_plan fail, while the corrected version boards them |
| Executor.ReplayAgrees | src/main/scope/Executor.py:42-53 | the main loop as written agrees with the corrected one whenever it succeeds |
| Executor.ReplayLocations | src/main/scope/Executor.py:28-30 | after the replay each bus is at the stop of its last route stop, or where it was |
| Executor.ReplayRiders | src/main/scope/Executor.py:42-53 | after the replay each rider of a bus rode it before or boarded at one of its stops |
| Executor.ReplayWaiting | src/main/scope/Executor.py:32-40 | after the replay each waiting rider was waiting before or alighted at one of the stops |
| Executor.UndroppedBoardingFailsAsWritten | src/main/scope/Executor.py:45 | as written, the main loop fails at the first boarding of a rider who has not alighted anywhere |
| Executor.ReplaySnoc | src/main/scope/Executor.py:28-53 | one iteration of the main loop, in terms of the route stops |
| Executor.Flatten | src/main/scope/Executor.py:89-91 | the flattened stops are exactly the stops of the routes |
| Executor.AppendedRoutes | src/main/scope/Executor.py:86-87 | each stored route keeps its bus and gets the current route at its place appended |
| Executor.LeadingBefore | src/main/scope/Executor.py:99-108 | the leading stops all arrive before t, and the first stop after them does not |
| Executor.LeadingSorted | src/main/scope/Executor.py:103 | on stops ordered by arrival, the leading stops are exactly those arriving before t |
| Executor.CommitRoute | src/main/scope/Executor.py:99-112 | committing a route fails exactly on the IndexError or a sub_times error; otherwise its leading stops are done and stored, and the first stop after them sets the delay |
| Executor.CommitFrom | src/main/scope/Executor.py:98-112 | committing the routes in order keeps the number of stored routes |
| Executor.CommitSucceeds | src/main/scope/Executor.py:98-112 | committing succeeds exactly when every route can be committed |
| Executor.CommitDone | src/main/scope/Executor.py:97-108 | the stops done are exactly the leading stops of every route |
| Executor.CommitStored | src/main/scope/Executor.py:98-108 | each stored route gets exactly the leading stops of the current route at its place |
| Executor.CommitKeeps | src/main/scope/Executor.py:98-112 | committing from position k on leaves the stored routes before k alone |
| Executor.CommitDelayKept | src/main/scope/Executor.py:111-112 | a bus with no route from position k on keeps its delay |
| Executor.CommitDelaySet | src/main/scope/Executor.py:111-112 | a bus's delay is the time from t to its first stop not before t, and is unchanged when there is none |
| Executor.ExecuteSpec | src/main/scope/Executor.py:80-115 | execute_plan keeps the fleet and the number of stored routes; without a next time it fails exactly on the IndexError and keeps the delays |
| Executor.ReplayedStops | src/main/scope/Executor.py:89-115 | the replayed stops come from the current routes, all of them without a next time, and the books are check_plan's on them |
| Executor.CheckPlanLocations | src/main/scope/Executor.py:24-77 | after check_plan each bus is where it was or at one of its stops, and at one of them if it made any |
| Executor.CheckPlanRiders | src/main/scope/Executor.py:24-77 | after check_plan each rider of a bus rode it before or boarded at one of its stops |
| Executor.ExecuteStored | src/main/scope/Executor.py:84-108 | each stored route gets the whole current route at its place without a next time, and exactly its stops before the next time with one |
| Executor.ExecuteLocations | src/main/scope/Executor.py:80-115 | after execute_plan each bus is where it was or at one of its stops, and at one of them without a next time |
| Executor.ExecuteRiders | src/main/scope/Executor.py:80-115 | after execute_plan each rider of a bus rode it before or boards at one of its stops |
| Executor.Executor.constructor | src/main/scope/Executor.py:14-22 | a fresh executor has the initial books, zero delays and the sorted empty routes |
| Executor.Executor.ArriveAt | src/main/scope/Executor.py:29-40 | the alighting loop performs the arrival |
| Executor.Executor.BoardAt | src/main/scope/Executor.py:44-50 | the boarding loop performs the boarding |
| Executor.Executor.ReplayStops | src/main/scope/Executor.py:26-53 | the main loop performs the replay, with the previous stop as the only one waiting |
| Executor.Executor.ReplayOne | src/main/scope/Executor.py:28-53 | one iteration arrives at the route stop, boards the previous stop if it departed by that arrival, and leaves the new stop as the only one waiting |
| Executor.Executor.CheckPlan | src/main/scope/Executor.py:24-77 | check_plan performs the replay and then the final stop's boarding or cut |
| Executor.Executor.FlattenRoutes | src/main/scope/Executor.py:89-91 | the loop collects the stops of all routes, route after route |
| Executor.Executor.AppendRoutes | src/main/scope/Executor.py:85-87 | the loop fails exactly with more current than stored routes, and otherwise appends each current route to the stored one |
| Executor.Executor.CommitLeading | src/main/scope/Executor.py:99-108 | the inner loop stores and returns the leading stops, failing exactly on the IndexError |
| Executor.Executor.CommitRouteAt | src/main/scope/Executor.py:99-112 | committing one route performs the commit specification |
| Executor.Executor.CommitRoutes | src/main/scope/Executor.py:97-112 | the loop over the current routes performs the commits in order |
| Executor.Executor.ExecutePlan | src/main/scope/Executor.py:80-115 | execute_plan performs its specification on the executor's state |

## Left out

- File, JSON and CSV input, configuration loading and every `print` are not modelled. No planning logic depends on them.
- Distances use `sqrt` on floats (Helper.calc_distance, the LineEdge duration). The model takes distance and duration as abstract function parameters.
- Floats are modelled as exact reals. Python's `round` is modelled as half-to-even. `int()` is modelled as truncation toward zero.
- The cplex solver and its tuning (`solve_model`) are not modelled. The model is data, and a solution is a given map from variables to reals.
- `make_plan` orchestration and `walk_route` in EventBasedMILP.py are unfinished in the source and are not modelled. The candidate aggregation they contain is modelled.
- `Helper.is_feasible` and `Helper.check_dir` are not part of this model. Feasibility is a predicate parameter.
- `Helper.complete_request` evaluates a configured equation with `eval`, so it is not modelled.
- src/utils/helper/EventGraph.py is a stale snapshot. It lacks the idle, pick-up and drop-off events, `edge_dict` and `request_dict` that the planners read. The `EventGraph` module defines the event graph from its use in CplexModel.py instead.
- The iteration orders of Python sets and dictionaries are given sequences. Python's actual orders are not modelled.
- Python object identity (`is`) on stops and events is modelled as value equality.
- Helper.FindSplitRequests takes the network's lines and its merged edges as the parameters `allLines` and `aggregatedEdges`. Helper.py:191, 199 and 204 read them as `network_graph.all_lines` and `network_graph.aggregated_edges`, but LineGraph.py:78-89 keeps `all_lines` as a local of the constructor and has no `aggregated_edges`, so as written these reads raise AttributeError. The model does not tie the two parameters to the graph.
- Helper.py:210, 217 and 227 build `LineEdge` with four arguments, one more than the constructor at LineGraph.py:45 accepts. The model takes the key these calls evidently intend: the two stops, the line and the calc_time_multi duration.
- CplexModel.py:339, 360, 366 and 378 call `Timer.create_time_object`, which Timer.py does not define. CplexDecode models these calls with `Timer.ConvertToTime`, the model of the minutes-to-time conversion `convert_2_time`.
- Timer.ParseInt models `int()` of a string only as an optional sign followed by ASCII decimal digits. Surrounding whitespace, digit underscores and non-ASCII digits, which `int()` also accepts, make the model fail.
- The `ValueError`s built but never raised are no-ops in the model. These are in Timer.py:18-19 and 44-52, LineGraph.py get_neighbour, and Executor.py:34, 47, 62 and 74.
- datetime.time comparisons in Executor.py are modelled as minute-total comparisons of TimeImpl.
- Route.py declares `stops` and a constructor of two arguments, but Executor.py uses `Route(bus)` and `stop_list`. The model follows Executor.py and CplexModel.py: a route is its bus and its stop list.
- Executor.py:84 sorts by `x.id`, but routes have no id. The model sorts the current routes by their bus's id, as the constructor does at Executor.py:22.
- `Executor.Executor.ExecutePlan` works on its own copy of the current routes. The in-place sort of the caller's list is not modelled.
- RouteStop objects are shared between routes and the done list in the source. Check_plan's cut of the last stop's departure and pick-ups at Executor.py:66-68 therefore also changes the stored route in the source. The model keeps route stops as values, so the stored routes do not see that cut.
- After an IndexError or a sub_times error partway through execute_plan, the source has already changed some routes, delays and books. The model returns the failure and does not state that partial state.
- Executor.Executor.ExecutePlan and Executor.Executor.CheckPlan require that every route stop's bus is a key of the books. The source raises KeyError for an unknown bus only when it drops off or picks up someone.
- CplexModel.BuildModel requires its look-ups to succeed, and states this as a precondition rather than a failure. These are the edge_dict and request_dict keys, an idle event per line and a leg per option; the source raises KeyError, StopIteration or IndexError where one fails.
- CplexDecode.TourEvents bounds the decoding walk by the length of the graph's key order, as fuel. A solution whose arcs cycle without returning to the idle event loops forever in the source; in the model it is a failure. When the key order lists the graph's events, CplexDecode.NoReturnRepeats proves that running out of fuel happens only on such a cycle. On a graph whose key order is shorter than its set of events, the model may fail on a tour the source decodes.
- The `q` values that convert_to_plan reads and prints (CplexModel.py:302-306) have no effect and are not modelled.
- `mulit` multi-objective branch in CplexModel.py:58-75 is switched off by a constant and is not modelled.
- TimeConstraints.AddValue states the offsets only; the `create_variables` dictionaries are modelled as bounds records.

## Findings

| source | as written | input that shows it | evidently intended | confidence | as-written member | corrected member |
|---|---|---|---|---|---|---|
| src/utils/helper/LineGraph.py:38 | `lines += lines` on Python sets raises TypeError | two lines whose stop lists share one consecutive pair of stops | the merged edge carries the union of the line sets | not executed | LineGraph.SharedSegmentFailsAsWritten | LineGraph.MergedLinesExact |
| src/main/plan/CplexModel.py:152 | var_dict is not reset before the outbound arcs, so the start rows also sum the arcs into the idle event | an idle event with one arc in from a leg's drop-off and one arc out to its pick-up, the tour taken and starting at the line's start | each start row is gated only by the arcs leaving the idle event | not executed | CplexModel.DepotStartRowCountsTravelTwice | CplexModel.AddDepotRowsOfLine, CplexModel.DepotGroupsExact |
| src/main/scope/Executor.py:45 | `user_locations.pop(u)` raises KeyError for a rider boarding at the start of their trip, who was never recorded as waiting | a fresh executor replaying one route stop that picks up a request at its own pick-up stop | the rider boards, and any waiting entry is removed | not executed | Executor.FirstBoardingFailsAsWritten | Executor.Executor.CheckPlan |
