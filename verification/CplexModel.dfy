/**
 * build_model: the mixed-integer model over the event graph, as data. Each linear constraint
 * is a row of weighted variables, a sense and a right-hand side; a solution is a value for
 * every variable, and a row holds under a solution when its weighted sum compares to the
 * right-hand side as the sense says. The variables are q (request accepted), z (option
 * chosen), B+ and B- (the service times of a leg) and x (arc used).
 */
module CplexModel {
  import opened Wrappers
  import opened Timer
  import opened Network
  import opened PriorityQueue
  import opened LineGraph
  import opened EventGraph
  import opened TimeConstraints

  /** The model's variables, named after their keys as in `q_{id}`, `z_{id},{key}`, `B_{split}+`, `B_{split}-`, `x_{a},{b}`. */
  datatype Var =
    | Q(request: int)
    | Z(request: int, option: int)
    | BStart(split: int)
    | BArr(split: int)
    | X(from: Event, to: Event)

  datatype Sense = Eq | Geq | Leq

  datatype Term = Term(v: Var, coeff: real)

  datatype Row = Row(terms: seq<Term>, sense: Sense, rhs: real)

  // ----- rows and their meaning -----

  /** The value of one term under a solution: its coefficient times its variable's value. */
  function TermValue(t: Term, val: Var -> real): real
  {
    t.coeff * val(t.v)
  }

  /** The weighted sum of a row's terms under a solution. */
  function Lhs(terms: seq<Term>, val: Var -> real): real
  {
    if terms == [] then 0.0
    else Lhs(terms[..|terms| - 1], val) + TermValue(terms[|terms| - 1], val)
  }

  /** A row holds when its weighted sum compares to the right-hand side as its sense says. */
  predicate Holds(row: Row, val: Var -> real)
  {
    match row.sense
    case Eq => Lhs(row.terms, val) == row.rhs
    case Geq => Lhs(row.terms, val) >= row.rhs
    case Leq => Lhs(row.terms, val) <= row.rhs
  }

  /** The sum of the values of some variables. */
  function SumOf(vs: seq<Var>, val: Var -> real): real
  {
    if vs == [] then 0.0 else SumOf(vs[..|vs| - 1], val) + val(vs[|vs| - 1])
  }

  /** The same coefficient on every variable of a list (`[c] * len(names)`). */
  function Terms(vs: seq<Var>, c: real): (ts: seq<Term>)
    ensures |ts| == |vs| && forall i :: 0 <= i < |vs| ==> ts[i] == Term(vs[i], c)
  {
    if vs == [] then [] else Terms(vs[..|vs| - 1], c) + [Term(vs[|vs| - 1], c)]
  }

  /** The weighted sum of two term lists one after the other. */
  lemma {:induction false} LhsAppend(a: seq<Term>, b: seq<Term>, val: Var -> real)
    ensures Lhs(a + b, val) == Lhs(a, val) + Lhs(b, val)
    decreases |b|
  {
    if b == [] {
      assert a + b == a;
    } else {
      var init := b[..|b| - 1];
      assert (a + b)[..|a + b| - 1] == a + init;
      LhsAppend(a, init, val);
    }
  }

  /** A common coefficient factors out of the weighted sum. */
  lemma LhsTerms(vs: seq<Var>, c: real, val: Var -> real)
    ensures Lhs(Terms(vs, c), val) == c * SumOf(vs, val)
  {
    LhsTermsScaled(vs, c, val);
  }

  /** c times x; named so that the inductive step below stays linear for the solver. */
  function Scale(c: real, x: real): real
  {
    c * x
  }

  /** LhsTerms, by induction on the variable list. */
  lemma {:induction false} LhsTermsScaled(vs: seq<Var>, c: real, val: Var -> real)
    ensures Lhs(Terms(vs, c), val) == Scale(c, SumOf(vs, val))
    decreases |vs|
  {
    if vs != [] {
      var init := vs[..|vs| - 1];
      LhsTermsScaled(init, c, val);
      LhsTermsSnoc(vs, c, val);
      FactorStep(c, Lhs(Terms(init, c), val), SumOf(init, val), vs[|vs| - 1], val,
                 Lhs(Terms(vs, c), val), SumOf(vs, val));
    } else {
      assert SumOf(vs, val) == 0.0;
    }
  }

  /** The last variable of a list adds its term to the weighted sum and its value to the plain sum. */
  lemma LhsTermsSnoc(vs: seq<Var>, c: real, val: Var -> real)
    requires vs != []
    ensures Lhs(Terms(vs, c), val) == Lhs(Terms(vs[..|vs| - 1], c), val) + TermValue(Term(vs[|vs| - 1], c), val)
    ensures SumOf(vs, val) == SumOf(vs[..|vs| - 1], val) + val(vs[|vs| - 1])
  {
    var ts := Terms(vs, c);
    assert ts[..|ts| - 1] == Terms(vs[..|vs| - 1], c);
    assert ts[|ts| - 1] == Term(vs[|vs| - 1], c);
  }

  /** One more term keeps a sum factored: from l0 == c * s0, adding the term of v to l0 and v's value to s0. */
  lemma FactorStep(c: real, l0: real, s0: real, v: Var, val: Var -> real, l: real, s: real)
    requires l0 == Scale(c, s0) && l == l0 + TermValue(Term(v, c), val) && s == s0 + val(v)
    ensures l == Scale(c, s)
  {
    assert c * (s0 + val(v)) == c * s0 + c * val(v);
  }

  /** The sum over two variable lists one after the other. */
  lemma {:induction false} SumOfAppend(a: seq<Var>, b: seq<Var>, val: Var -> real)
    ensures SumOf(a + b, val) == SumOf(a, val) + SumOf(b, val)
    decreases |b|
  {
    if b == [] {
      assert a + b == a;
    } else {
      var init := b[..|b| - 1];
      assert (a + b)[..|a + b| - 1] == a + init;
      SumOfAppend(a, init, val);
    }
  }

  /** The arcs from each of some events into e. */
  function ArcsInto(srcs: seq<Event>, e: Event): (vs: seq<Var>)
    ensures |vs| == |srcs| && forall i :: 0 <= i < |srcs| ==> vs[i] == X(srcs[i], e)
  {
    if srcs == [] then [] else ArcsInto(srcs[..|srcs| - 1], e) + [X(srcs[|srcs| - 1], e)]
  }

  /** The arcs from e to each of some events. */
  function ArcsOutOf(e: Event, dsts: seq<Event>): (vs: seq<Var>)
    ensures |vs| == |dsts| && forall i :: 0 <= i < |dsts| ==> vs[i] == X(e, dsts[i])
  {
    if dsts == [] then [] else ArcsOutOf(e, dsts[..|dsts| - 1]) + [X(e, dsts[|dsts| - 1])]
  }

  // ----- flow conservation -----

  /** The flow row of an event: +1 on each inbound arc, -1 on each outbound arc, equal to 0. */
  function FlowRow(g: Graph, e: Event): Row
    requires e in g.edgeDict
  {
    Row(Terms(ArcsInto(g.edgeDict[e].inbound, e), 1.0) + Terms(ArcsOutOf(e, g.edgeDict[e].outbound), -1.0), Eq, 0.0)
  }

  /** A flow row holds exactly when as much flow enters the event as leaves it. */
  lemma {:induction false} FlowRowMeaning(g: Graph, e: Event, val: Var -> real)
    requires e in g.edgeDict
    ensures Holds(FlowRow(g, e), val) <==>
              SumOf(ArcsInto(g.edgeDict[e].inbound, e), val) == SumOf(ArcsOutOf(e, g.edgeDict[e].outbound), val)
  {
    var ins := ArcsInto(g.edgeDict[e].inbound, e);
    var outs := ArcsOutOf(e, g.edgeDict[e].outbound);
    var row := FlowRow(g, e);
    assert row.terms == Terms(ins, 1.0) + Terms(outs, -1.0) && row.sense == Eq && row.rhs == 0.0;
    LhsAppend(Terms(ins, 1.0), Terms(outs, -1.0), val);
    LhsTerms(ins, 1.0, val);
    LhsTerms(outs, -1.0, val);
    assert Lhs(row.terms, val) == SumOf(ins, val) - SumOf(outs, val);
  }

  /** The flow loop: one row per event, in the order of edge_dict. */
  method AddFlowRows(g: Graph) returns (rows: seq<Row>)
    requires KeysListed(g)
    ensures |rows| == |g.eventOrder|
    ensures forall k :: 0 <= k < |rows| ==> rows[k] == FlowRow(g, g.eventOrder[k])
  {
    rows := [];
    for i := 0 to |g.eventOrder|
      invariant |rows| == i
      invariant forall k :: 0 <= k < i ==> rows[k] == FlowRow(g, g.eventOrder[k])
    {
      rows := rows + [FlowRow(g, g.eventOrder[i])];
    }
  }

  // ----- option coverage -----

  /** The arcs into any of some events (the pick-up events of a leg). */
  function ArcsIntoAll(g: Graph, events: seq<Event>): seq<Var>
    requires forall e :: e in events ==> e in g.edgeDict
  {
    if events == [] then []
    else
      var e := events[|events| - 1];
      ArcsIntoAll(g, events[..|events| - 1]) + ArcsInto(g.edgeDict[e].inbound, e)
  }

  /** The coverage row of one leg of an option: the arcs into its pick-up events, minus z, at least 0. */
  function OptionRow(g: Graph, req: Request, opt: RouteOption, leg: Leg): Row
    requires leg in g.requestDict && Closed(g)
  {
    Row(Terms(ArcsIntoAll(g, g.requestDict[leg].pickUps), 1.0) + [Term(Z(req.id, opt.key), -1.0)], Geq, 0.0)
  }

  /** A coverage row holds exactly when the leg is reached at least as often as its option is chosen. */
  lemma {:induction false} OptionRowMeaning(g: Graph, req: Request, opt: RouteOption, leg: Leg, val: Var -> real)
    requires leg in g.requestDict && Closed(g)
    ensures Holds(OptionRow(g, req, opt, leg), val) <==>
              SumOf(ArcsIntoAll(g, g.requestDict[leg].pickUps), val) >= val(Z(req.id, opt.key))
  {
    var ins := ArcsIntoAll(g, g.requestDict[leg].pickUps);
    var row := OptionRow(g, req, opt, leg);
    assert row.terms == Terms(ins, 1.0) + [Term(Z(req.id, opt.key), -1.0)] && row.sense == Geq && row.rhs == 0.0;
    LhsAppend(Terms(ins, 1.0), [Term(Z(req.id, opt.key), -1.0)], val);
    LhsTerms(ins, 1.0, val);
    assert Lhs([Term(Z(req.id, opt.key), -1.0)], val) == -1.0 * val(Z(req.id, opt.key));
    assert Lhs(row.terms, val) == SumOf(ins, val) - val(Z(req.id, opt.key));
  }

  /** Every leg of every option of the requests has events in request_dict. */
  predicate LegsKnown(g: Graph, requests: seq<Request>)
  {
    forall r, o, l :: r in requests && o in r.options && l in o.legs ==> l in g.requestDict
  }

  /** The coverage rows of some options of a request, option by option, leg by leg. */
  function OptionRowsOf(g: Graph, req: Request, opts: seq<RouteOption>): seq<Row>
    requires Closed(g) && forall o, l :: o in opts && l in o.legs ==> l in g.requestDict
  {
    if opts == [] then []
    else
      var o := opts[|opts| - 1];
      OptionRowsOf(g, req, opts[..|opts| - 1]) + seq(|o.legs|, k requires 0 <= k < |o.legs| => OptionRow(g, req, o, o.legs[k]))
  }

  /** The coverage rows of some requests. */
  function OptionRows(g: Graph, requests: seq<Request>): seq<Row>
    requires Closed(g) && LegsKnown(g, requests)
  {
    if requests == [] then []
    else
      var r := requests[|requests| - 1];
      OptionRows(g, requests[..|requests| - 1]) + OptionRowsOf(g, r, r.options)
  }

  /** Every leg of every option has its coverage row. */
  lemma {:induction false} OptionRowsCover(g: Graph, requests: seq<Request>, r: Request, o: RouteOption, l: Leg)
    requires Closed(g) && LegsKnown(g, requests)
    requires r in requests && o in r.options && l in o.legs
    ensures OptionRow(g, r, o, l) in OptionRows(g, requests)
    decreases |requests|
  {
    var init := requests[..|requests| - 1];
    if r == requests[|requests| - 1] {
      OptionRowsOfCover(g, r, r.options, o, l);
    } else {
      assert r in init;
      OptionRowsCover(g, init, r, o, l);
    }
  }

  lemma {:induction false} OptionRowsOfCover(g: Graph, req: Request, opts: seq<RouteOption>, o: RouteOption, l: Leg)
    requires Closed(g) && forall o, l :: o in opts && l in o.legs ==> l in g.requestDict
    requires o in opts && l in o.legs
    ensures OptionRow(g, req, o, l) in OptionRowsOf(g, req, opts)
    decreases |opts|
  {
    var init := opts[..|opts| - 1];
    if o == opts[|opts| - 1] {
      var k :| 0 <= k < |o.legs| && o.legs[k] == l;
      var tail := seq(|o.legs|, k requires 0 <= k < |o.legs| => OptionRow(g, req, o, o.legs[k]));
      assert tail[k] == OptionRow(g, req, o, l);
    } else {
      assert o in init;
      OptionRowsOfCover(g, req, init, o, l);
    }
  }

  /** The coverage loop over the options of one request; the loop over legs is the row list. */
  method AddOptionRowsOf(g: Graph, req: Request) returns (rows: seq<Row>)
    requires Closed(g) && forall o, l :: o in req.options && l in o.legs ==> l in g.requestDict
    ensures rows == OptionRowsOf(g, req, req.options)
  {
    rows := [];
    for j := 0 to |req.options|
      invariant rows == OptionRowsOf(g, req, req.options[..j])
    {
      assert req.options[..j + 1][..j] == req.options[..j];
      var opt := req.options[j];
      rows := rows + seq(|opt.legs|, k requires 0 <= k < |opt.legs| => OptionRow(g, req, opt, opt.legs[k]));
    }
    assert req.options[..|req.options|] == req.options;
  }

  /** The coverage loop over the requests. */
  method AddOptionRows(g: Graph, requests: seq<Request>) returns (rows: seq<Row>)
    requires Closed(g) && LegsKnown(g, requests)
    ensures rows == OptionRows(g, requests)
  {
    rows := [];
    for i := 0 to |requests|
      invariant rows == OptionRows(g, requests[..i])
    {
      assert requests[..i + 1][..i] == requests[..i];
      var more := AddOptionRowsOf(g, requests[i]);
      rows := rows + more;
    }
    assert requests[..|requests|] == requests;
  }

  // ----- fleet size -----

  /** The number of buses serving a line. */
  function BusCount(buses: seq<Bus>, line: Line): (n: nat)
    ensures n <= |buses|
  {
    if buses == [] then 0
    else BusCount(buses[..|buses| - 1], line) + (if buses[|buses| - 1].line == line then 1 else 0)
  }

  /** The fleet row of a line: the arcs leaving its idle event, at most the number of its buses. */
  function FleetRow(g: Graph, buses: seq<Bus>, line: Line): Row
    requires IdleEvent(line) in g.edgeDict
  {
    Row(Terms(ArcsOutOf(IdleEvent(line), g.edgeDict[IdleEvent(line)].outbound), 1.0), Leq, BusCount(buses, line) as real)
  }

  /** A fleet row holds exactly when no more tours leave the depot than the line has buses. */
  lemma {:induction false} FleetRowMeaning(g: Graph, buses: seq<Bus>, line: Line, val: Var -> real)
    requires IdleEvent(line) in g.edgeDict
    ensures Holds(FleetRow(g, buses, line), val) <==>
              SumOf(ArcsOutOf(IdleEvent(line), g.edgeDict[IdleEvent(line)].outbound), val) <= BusCount(buses, line) as real
  {
    var vs := ArcsOutOf(IdleEvent(line), g.edgeDict[IdleEvent(line)].outbound);
    var row := FleetRow(g, buses, line);
    assert row.terms == Terms(vs, 1.0) && row.sense == Leq;
    LhsTerms(vs, 1.0, val);
    assert Lhs(row.terms, val) == SumOf(vs, val);
  }

  /** Every line of the fleet has an idle event (next() raises StopIteration otherwise). */
  predicate IdleKnown(g: Graph, lines: seq<Line>)
  {
    forall l :: l in lines ==> IdleEvent(l) in g.edgeDict
  }

  /** The fleet loop: one row per line. */
  method AddFleetRows(g: Graph, buses: seq<Bus>, lines: seq<Line>) returns (rows: seq<Row>)
    requires IdleKnown(g, lines)
    ensures |rows| == |lines|
    ensures forall k :: 0 <= k < |rows| ==> rows[k] == FleetRow(g, buses, lines[k])
  {
    rows := [];
    for i := 0 to |lines|
      invariant |rows| == i
      invariant forall k :: 0 <= k < i ==> rows[k] == FleetRow(g, buses, lines[k])
    {
      rows := rows + [FleetRow(g, buses, lines[i])];
    }
  }

  // ----- var_dict: arcs grouped by a key, in first-insertion order -----

  /** One entry of var_dict: a key and the arc variables collected for it. */
  datatype Group<K> = Group(key: K, arcs: seq<Var>)

  /** No key has two entries. */
  predicate UniqueKeys<K(==)>(d: seq<Group<K>>)
  {
    forall i, j :: 0 <= i < j < |d| ==> d[i].key != d[j].key
  }

  /** The arcs collected for a key, or none. */
  function ArcsFor<K(==)>(d: seq<Group<K>>, k: K): seq<Var>
  {
    if d == [] then [] else if d[0].key == k then d[0].arcs else ArcsFor(d[1..], k)
  }

  /** The keys of var_dict, in order. */
  function KeysOf<K>(d: seq<Group<K>>): (ks: seq<K>)
    ensures |ks| == |d| && forall i :: 0 <= i < |d| ==> ks[i] == d[i].key
  {
    if d == [] then [] else [d[0].key] + KeysOf(d[1..])
  }

  /** `var_dict[k] += [v]` if k is a key, else `var_dict[k] = [v]` (a new last entry). */
  function PutArc<K(==)>(d: seq<Group<K>>, k: K, v: Var): (r: seq<Group<K>>)
    ensures |r| == |d| || |r| == |d| + 1
  {
    if d == [] then [Group(k, [v])]
    else if d[0].key == k then [Group(k, d[0].arcs + [v])] + d[1..]
    else [d[0]] + PutArc(d[1..], k, v)
  }

  /** Putting an arc appends it to its key's list, leaves the other keys' lists alone and keeps keys unique. */
  lemma {:induction false} PutArcSpec<K>(d: seq<Group<K>>, k: K, v: Var)
    requires UniqueKeys(d)
    ensures UniqueKeys(PutArc(d, k, v))
    ensures forall k' :: ArcsFor(PutArc(d, k, v), k') == ArcsFor(d, k') + (if k' == k then [v] else [])
    ensures forall k' :: k' in KeysOf(PutArc(d, k, v)) <==> k' in KeysOf(d) || k' == k
  {
    if d != [] && d[0].key != k {
      PutArcSpec(d[1..], k, v);
      forall k' | true
        ensures k' in KeysOf(PutArc(d, k, v)) <==> k' in KeysOf(d) || k' == k
      {
        assert KeysOf(PutArc(d, k, v)) == [d[0].key] + KeysOf(PutArc(d[1..], k, v));
        assert KeysOf(d) == [d[0].key] + KeysOf(d[1..]);
      }
      var r := PutArc(d, k, v);
      forall i, j | 0 <= i < j < |r|
        ensures r[i].key != r[j].key
      {
        if i == 0 {
          assert r[j].key in KeysOf(PutArc(d[1..], k, v)) by {
            assert KeysOf(PutArc(d[1..], k, v))[j - 1] == r[j].key;
          }
          assert d[0].key !in KeysOf(d[1..]) by {
            forall t | 0 <= t < |d[1..]|
              ensures KeysOf(d[1..])[t] != d[0].key
            {
              assert d[1..][t] == d[t + 1];
            }
          }
        }
      }
    } else if d != [] {
      var r := PutArc(d, k, v);
      assert KeysOf(r) == [k] + KeysOf(d[1..]);
      assert KeysOf(d) == [k] + KeysOf(d[1..]);
      forall k' | k' != k
        ensures ArcsFor(r, k') == ArcsFor(d, k')
      {
        assert r[1..] == d[1..];
      }
    }
  }

  /** The pairs of a list whose key is k, in order. */
  function Matching<K(==)>(ps: seq<(K, Var)>, k: K): seq<Var>
  {
    if ps == [] then []
    else Matching(ps[..|ps| - 1], k) + (if ps[|ps| - 1].0 == k then [ps[|ps| - 1].1] else [])
  }

  /** Putting a list of (key, arc) pairs one after the other. */
  function PutAll<K(==)>(d: seq<Group<K>>, ps: seq<(K, Var)>): seq<Group<K>>
  {
    if ps == [] then d else PutArc(PutAll(d, ps[..|ps| - 1]), ps[|ps| - 1].0, ps[|ps| - 1].1)
  }

  /** After putting a list of pairs, each key's arcs are its old arcs followed by its pairs' arcs in list order. */
  lemma {:induction false} PutAllSpec<K>(d: seq<Group<K>>, ps: seq<(K, Var)>)
    requires UniqueKeys(d)
    ensures UniqueKeys(PutAll(d, ps))
    ensures forall k :: ArcsFor(PutAll(d, ps), k) == ArcsFor(d, k) + Matching(ps, k)
    ensures forall k :: k in KeysOf(PutAll(d, ps)) <==> k in KeysOf(d) || exists p :: p in ps && p.0 == k
    decreases |ps|
  {
    if ps != [] {
      var init := ps[..|ps| - 1];
      var last := ps[|ps| - 1];
      PutAllSpec(d, init);
      PutArcSpec(PutAll(d, init), last.0, last.1);
      forall k | true
        ensures k in KeysOf(PutAll(d, ps)) <==> k in KeysOf(d) || exists p :: p in ps && p.0 == k
      {
        if exists p :: p in init && p.0 == k {
          var p :| p in init && p.0 == k;
          assert p in ps;
        }
        if exists p :: p in ps && p.0 == k {
          var p :| p in ps && p.0 == k;
          if p != last {
            assert p in init;
          }
        }
      }
    }
  }

  // ----- depot timing -----

  /** The (leg, arc) pairs of the arcs from an idle event's neighbours into it. */
  function InboundPairs(srcs: seq<Event>, idle: Event): (ps: seq<(Leg, Var)>)
    requires forall f :: f in srcs ==> !f.IdleEvent?
    ensures |ps| == |srcs| && forall i :: 0 <= i < |srcs| ==> ps[i] == (srcs[i].first, X(srcs[i], idle))
  {
    if srcs == [] then [] else InboundPairs(srcs[..|srcs| - 1], idle) + [(srcs[|srcs| - 1].first, X(srcs[|srcs| - 1], idle))]
  }

  /** The (leg, arc) pairs of the arcs from an idle event out to its neighbours. */
  function OutboundPairs(idle: Event, dsts: seq<Event>): (ps: seq<(Leg, Var)>)
    requires forall f :: f in dsts ==> !f.IdleEvent?
    ensures |ps| == |dsts| && forall i :: 0 <= i < |dsts| ==> ps[i] == (dsts[i].first, X(idle, dsts[i]))
  {
    if dsts == [] then [] else OutboundPairs(idle, dsts[..|dsts| - 1]) + [(dsts[|dsts| - 1].first, X(idle, dsts[|dsts| - 1]))]
  }

  /** The idle event of a line is a key and its neighbours are leg events (they have a `first` leg). */
  predicate DepotReady(g: Graph, line: Line)
  {
    IdleEvent(line) in g.edgeDict &&
    (forall f :: f in g.edgeDict[IdleEvent(line)].inbound ==> !f.IdleEvent?) &&
    (forall f :: f in g.edgeDict[IdleEvent(line)].outbound ==> !f.IdleEvent?)
  }

  /** Coming home: travel from the leg's drop-off to the depot, gated by the leg's arcs into idle, ends by the line's end. */
  function ArrivalRow(enc: Encoding, dur: (Stop, Stop) -> real, line: Line, grp: Group<Leg>): Row
  {
    var d := dur(grp.key.dropOff, Location(IdleEvent(line)));
    Row(Terms(grp.arcs, d) + [Term(BArr(grp.key.splitId), 1.0)], Leq,
        GetInMinutes(line.endTime) - AddValue(enc, grp.key, false))
  }

  /** Leaving home: the leg's start is no earlier than the line's start plus the transfer minutes plus the travel from the depot. */
  function StartRow(enc: Encoding, dur: (Stop, Stop) -> real, transfer: real, line: Line, grp: Group<Leg>): Row
  {
    var d := dur(Location(IdleEvent(line)), grp.key.pickUp);
    Row(Terms(grp.arcs, d) + [Term(BStart(grp.key.splitId), -1.0)], Leq,
        - GetInMinutes(line.startTime) - transfer + AddValue(enc, grp.key, true))
  }

  /** An arrival row holds exactly when arrival clock time plus the gated travel home is within the line's hours. */
  lemma ArrivalRowMeaning(enc: Encoding, dur: (Stop, Stop) -> real, line: Line, grp: Group<Leg>, val: Var -> real)
    ensures var d := dur(grp.key.dropOff, Location(IdleEvent(line)));
            Holds(ArrivalRow(enc, dur, line, grp), val) <==>
              val(BArr(grp.key.splitId)) + AddValue(enc, grp.key, false) + d * SumOf(grp.arcs, val) <= GetInMinutes(line.endTime)
  {
    var d := dur(grp.key.dropOff, Location(IdleEvent(line)));
    var row := ArrivalRow(enc, dur, line, grp);
    var tail := [Term(BArr(grp.key.splitId), 1.0)];
    assert row.terms == Terms(grp.arcs, d) + tail && row.sense == Leq;
    LhsAppend(Terms(grp.arcs, d), tail, val);
    LhsTerms(grp.arcs, d, val);
    assert Lhs(tail, val) == val(BArr(grp.key.splitId));
  }

  /** A start row holds exactly when the start clock time is at least the line's start, the transfer minutes and the gated travel. */
  lemma StartRowMeaning(enc: Encoding, dur: (Stop, Stop) -> real, transfer: real, line: Line, grp: Group<Leg>, val: Var -> real)
    ensures var d := dur(Location(IdleEvent(line)), grp.key.pickUp);
            Holds(StartRow(enc, dur, transfer, line, grp), val) <==>
              val(BStart(grp.key.splitId)) + AddValue(enc, grp.key, true) >=
                GetInMinutes(line.startTime) + transfer + d * SumOf(grp.arcs, val)
  {
    var d := dur(Location(IdleEvent(line)), grp.key.pickUp);
    var row := StartRow(enc, dur, transfer, line, grp);
    var tail := [Term(BStart(grp.key.splitId), -1.0)];
    assert row.terms == Terms(grp.arcs, d) + tail && row.sense == Leq;
    LhsAppend(Terms(grp.arcs, d), tail, val);
    LhsTerms(grp.arcs, d, val);
    assert Lhs(tail, val) == -1.0 * val(BStart(grp.key.splitId));
  }

  /** The arcs into a line's idle event, grouped by leg. */
  function InGroups(g: Graph, line: Line): seq<Group<Leg>>
    requires DepotReady(g, line)
  {
    PutAll([], InboundPairs(g.edgeDict[IdleEvent(line)].inbound, IdleEvent(line)))
  }

  /** The arcs out of a line's idle event, grouped by leg in a fresh var_dict. */
  function OutGroups(g: Graph, line: Line): seq<Group<Leg>>
    requires DepotReady(g, line)
  {
    PutAll([], OutboundPairs(IdleEvent(line), g.edgeDict[IdleEvent(line)].outbound))
  }

  /** As written: line 152 goes on filling the var_dict of the arrival rows. */
  function OutGroupsAsWritten(g: Graph, line: Line): seq<Group<Leg>>
    requires DepotReady(g, line)
  {
    PutAll(InGroups(g, line), OutboundPairs(IdleEvent(line), g.edgeDict[IdleEvent(line)].outbound))
  }

  /** An arrival row per group, in var_dict order. */
  function ArrivalRows(enc: Encoding, dur: (Stop, Stop) -> real, line: Line, groups: seq<Group<Leg>>): (rows: seq<Row>)
    ensures |rows| == |groups| && forall i :: 0 <= i < |groups| ==> rows[i] == ArrivalRow(enc, dur, line, groups[i])
  {
    seq(|groups|, i requires 0 <= i < |groups| => ArrivalRow(enc, dur, line, groups[i]))
  }

  /** A start row per group, in var_dict order. */
  function StartRows(enc: Encoding, dur: (Stop, Stop) -> real, transfer: real, line: Line, groups: seq<Group<Leg>>): (rows: seq<Row>)
    ensures |rows| == |groups| && forall i :: 0 <= i < |groups| ==> rows[i] == StartRow(enc, dur, transfer, line, groups[i])
  {
    seq(|groups|, i requires 0 <= i < |groups| => StartRow(enc, dur, transfer, line, groups[i]))
  }

  /** The depot rows of one line: an arrival row per leg coming home, then a start row per leg leaving home. */
  function DepotRowsOfLine(enc: Encoding, g: Graph, dur: (Stop, Stop) -> real, transfer: real, line: Line): seq<Row>
    requires DepotReady(g, line)
  {
    ArrivalRows(enc, dur, line, InGroups(g, line)) + StartRows(enc, dur, transfer, line, OutGroups(g, line))
  }

  /** The depot rows of one line as written, with the start rows over the shared var_dict. */
  function DepotRowsOfLineAsWritten(enc: Encoding, g: Graph, dur: (Stop, Stop) -> real, transfer: real, line: Line): seq<Row>
    requires DepotReady(g, line)
  {
    ArrivalRows(enc, dur, line, InGroups(g, line)) + StartRows(enc, dur, transfer, line, OutGroupsAsWritten(g, line))
  }

  /**
   * The start rows gate each leg's start by exactly the arcs from the idle event to that leg's
   * events, and every leg leaving home has one; the arrival rows likewise for the arcs into idle.
   */
  lemma {:induction false} DepotGroupsExact(g: Graph, line: Line, l: Leg)
    requires DepotReady(g, line)
    ensures UniqueKeys(InGroups(g, line)) && UniqueKeys(OutGroups(g, line))
    ensures ArcsFor(InGroups(g, line), l) == Matching(InboundPairs(g.edgeDict[IdleEvent(line)].inbound, IdleEvent(line)), l)
    ensures ArcsFor(OutGroups(g, line), l) == Matching(OutboundPairs(IdleEvent(line), g.edgeDict[IdleEvent(line)].outbound), l)
    ensures l in KeysOf(OutGroups(g, line)) <==> exists f :: f in g.edgeDict[IdleEvent(line)].outbound && f.first == l
  {
    var ips := InboundPairs(g.edgeDict[IdleEvent(line)].inbound, IdleEvent(line));
    var ops := OutboundPairs(IdleEvent(line), g.edgeDict[IdleEvent(line)].outbound);
    PutAllSpec([], ips);
    PutAllSpec([], ops);
    var outs := g.edgeDict[IdleEvent(line)].outbound;
    if exists p :: p in ops && p.0 == l {
      var p :| p in ops && p.0 == l;
      var i :| 0 <= i < |ops| && ops[i] == p;
      assert outs[i] in outs && outs[i].first == l;
    }
    if exists f :: f in outs && f.first == l {
      var f :| f in outs && f.first == l;
      var i :| 0 <= i < |outs| && outs[i] == f;
      assert ops[i] in ops && ops[i].0 == l;
    }
  }

  /**
   * As written, a leg's start row also carries its arcs into idle: its gating list is the arcs
   * into idle followed by the arcs out of idle.
   */
  lemma {:induction false} DepotGroupsAsWritten(g: Graph, line: Line, l: Leg)
    requires DepotReady(g, line)
    ensures ArcsFor(OutGroupsAsWritten(g, line), l) ==
              Matching(InboundPairs(g.edgeDict[IdleEvent(line)].inbound, IdleEvent(line)), l) +
              Matching(OutboundPairs(IdleEvent(line), g.edgeDict[IdleEvent(line)].outbound), l)
  {
    var ips := InboundPairs(g.edgeDict[IdleEvent(line)].inbound, IdleEvent(line));
    var ops := OutboundPairs(IdleEvent(line), g.edgeDict[IdleEvent(line)].outbound);
    PutAllSpec([], ips);
    PutAllSpec(InGroups(g, line), ops);
  }

  /** The var_dicts of the depot loops for an idle event with one arc in and one arc out, both of leg l. */
  lemma TourGroups(g: Graph, line: Line, l: Leg, m1: set<Leg>, m2: set<Leg>)
    requires IdleEvent(line) in g.edgeDict
    requires g.edgeDict[IdleEvent(line)] == Adjacency([DropOffEvent(l, m1)], [PickUpEvent(l, m2)])
    ensures DepotReady(g, line)
    ensures InGroups(g, line) == [Group(l, [X(DropOffEvent(l, m1), IdleEvent(line))])]
    ensures OutGroups(g, line) == [Group(l, [X(IdleEvent(line), PickUpEvent(l, m2))])]
    ensures OutGroupsAsWritten(g, line) ==
              [Group(l, [X(DropOffEvent(l, m1), IdleEvent(line)), X(IdleEvent(line), PickUpEvent(l, m2))])]
  {
    var idle := IdleEvent(line);
    var a := X(DropOffEvent(l, m1), idle);
    var b := X(idle, PickUpEvent(l, m2));
    var ips := InboundPairs([DropOffEvent(l, m1)], idle);
    var ops := OutboundPairs(idle, [PickUpEvent(l, m2)]);
    assert ips == [(l, a)];
    assert ops == [(l, b)];
    assert ips[..0] == [] && ops[..0] == [];
    assert PutAll([], ips) == PutArc([], l, a);
    assert PutAll([], ops) == PutArc([], l, b);
    assert PutAll([Group(l, [a])], ops) == PutArc([Group(l, [a])], l, b);
    assert [Group(l, [a])][1..] == [];
    assert [a] + [b] == [a, b];
    assert PutArc([Group(l, [a])], l, b) == [Group(l, [a, b])];
  }

  /**
   * The as-written start row over-constrains a plain tour: with a bus leaving the depot to
   * pick up a leg, dropping it off and returning, and starting as early as the line allows,
   * the intended start row holds while the as-written one demands the depot travel twice.
   */
  lemma DepotStartRowCountsTravelTwice(enc: Encoding, g: Graph, dur: (Stop, Stop) -> real, transfer: real,
                                       line: Line, l: Leg, m1: set<Leg>, m2: set<Leg>, val: Var -> real)
    requires IdleEvent(line) in g.edgeDict
    requires g.edgeDict[IdleEvent(line)] == Adjacency([DropOffEvent(l, m1)], [PickUpEvent(l, m2)])
    requires dur(Location(IdleEvent(line)), l.pickUp) > 0.0
    requires val(X(DropOffEvent(l, m1), IdleEvent(line))) == 1.0 && val(X(IdleEvent(line), PickUpEvent(l, m2))) == 1.0
    requires val(BStart(l.splitId)) + AddValue(enc, l, true) ==
               GetInMinutes(line.startTime) + transfer + dur(Location(IdleEvent(line)), l.pickUp)
    ensures DepotReady(g, line)
    ensures var rows := DepotRowsOfLine(enc, g, dur, transfer, line);
            |rows| == 2 && rows[1] == StartRow(enc, dur, transfer, line, Group(l, [X(IdleEvent(line), PickUpEvent(l, m2))])) &&
            Holds(rows[1], val)
    ensures var rows := DepotRowsOfLineAsWritten(enc, g, dur, transfer, line);
            |rows| == 2 &&
            rows[1] == StartRow(enc, dur, transfer, line,
                                Group(l, [X(DropOffEvent(l, m1), IdleEvent(line)), X(IdleEvent(line), PickUpEvent(l, m2))])) &&
            !Holds(rows[1], val)
  {
    var idle := IdleEvent(line);
    var a := X(DropOffEvent(l, m1), idle);
    var b := X(idle, PickUpEvent(l, m2));
    TourGroups(g, line, l, m1, m2);
    var good := Group(l, [b]);
    var bad := Group(l, [a, b]);
    StartRowMeaning(enc, dur, transfer, line, good, val);
    StartRowMeaning(enc, dur, transfer, line, bad, val);
    assert SumOf([b], val) == 1.0;
    assert SumOf([a, b], val) == 2.0 by {
      assert [a, b][..1] == [a];
    }
  }

  /** The corrected depot loops of one line: a fresh var_dict for the arcs leaving idle. */
  method AddDepotRowsOfLine(enc: Encoding, g: Graph, dur: (Stop, Stop) -> real, transfer: real, line: Line)
    returns (rows: seq<Row>)
    requires DepotReady(g, line)
    ensures rows == DepotRowsOfLine(enc, g, dur, transfer, line)
  {
    var idle := IdleEvent(line);
    var adj := g.edgeDict[idle];
    var inDict := GroupInbound(adj.inbound, idle);
    var arrivals := AddArrivalRows(enc, dur, line, inDict);
    var outDict := GroupOutbound(idle, adj.outbound);
    var starts := AddStartRows(enc, dur, transfer, line, outDict);
    rows := arrivals + starts;
  }

  /** The loop over var_dict adding the arrival rows. */
  method AddArrivalRows(enc: Encoding, dur: (Stop, Stop) -> real, line: Line, groups: seq<Group<Leg>>) returns (rows: seq<Row>)
    ensures rows == ArrivalRows(enc, dur, line, groups)
  {
    rows := [];
    for k := 0 to |groups|
      invariant |rows| == k && forall i :: 0 <= i < k ==> rows[i] == ArrivalRow(enc, dur, line, groups[i])
    {
      rows := rows + [ArrivalRow(enc, dur, line, groups[k])];
    }
  }

  /** The loop over var_dict adding the start rows. */
  method AddStartRows(enc: Encoding, dur: (Stop, Stop) -> real, transfer: real, line: Line, groups: seq<Group<Leg>>)
    returns (rows: seq<Row>)
    ensures rows == StartRows(enc, dur, transfer, line, groups)
  {
    rows := [];
    for k := 0 to |groups|
      invariant |rows| == k && forall i :: 0 <= i < k ==> rows[i] == StartRow(enc, dur, transfer, line, groups[i])
    {
      rows := rows + [StartRow(enc, dur, transfer, line, groups[k])];
    }
  }

  /** The loop filling var_dict from the arcs into idle. */
  method GroupInbound(srcs: seq<Event>, idle: Event) returns (d: seq<Group<Leg>>)
    requires forall f :: f in srcs ==> !f.IdleEvent?
    ensures d == PutAll([], InboundPairs(srcs, idle))
  {
    ghost var ps := InboundPairs(srcs, idle);
    d := [];
    for i := 0 to |srcs|
      invariant d == PutAll([], ps[..i])
    {
      assert ps[..i + 1][..i] == ps[..i];
      assert ps[i] == (srcs[i].first, X(srcs[i], idle));
      d := PutArc(d, srcs[i].first, X(srcs[i], idle));
    }
    assert ps[..|srcs|] == ps;
  }

  /** The loop filling a var_dict from the arcs out of idle. */
  method GroupOutbound(idle: Event, dsts: seq<Event>) returns (d: seq<Group<Leg>>)
    requires forall f :: f in dsts ==> !f.IdleEvent?
    ensures d == PutAll([], OutboundPairs(idle, dsts))
  {
    ghost var ps := OutboundPairs(idle, dsts);
    d := [];
    for i := 0 to |dsts|
      invariant d == PutAll([], ps[..i])
    {
      assert ps[..i + 1][..i] == ps[..i];
      assert ps[i] == (dsts[i].first, X(idle, dsts[i]));
      d := PutArc(d, dsts[i].first, X(idle, dsts[i]));
    }
    assert ps[..|dsts|] == ps;
  }

  /** The depot rows of some lines. */
  function DepotRows(enc: Encoding, g: Graph, dur: (Stop, Stop) -> real, transfer: real, lines: seq<Line>): seq<Row>
    requires forall l :: l in lines ==> DepotReady(g, l)
  {
    if lines == [] then []
    else DepotRows(enc, g, dur, transfer, lines[..|lines| - 1]) + DepotRowsOfLine(enc, g, dur, transfer, lines[|lines| - 1])
  }

  /** The depot loop over the lines. */
  method AddDepotRows(enc: Encoding, g: Graph, dur: (Stop, Stop) -> real, transfer: real, lines: seq<Line>)
    returns (rows: seq<Row>)
    requires forall l :: l in lines ==> DepotReady(g, l)
    ensures rows == DepotRows(enc, g, dur, transfer, lines)
  {
    rows := [];
    for i := 0 to |lines|
      invariant rows == DepotRows(enc, g, dur, transfer, lines[..i])
    {
      assert lines[..i + 1][..i] == lines[..i];
      var more := AddDepotRowsOfLine(enc, g, dur, transfer, lines[i]);
      rows := rows + more;
    }
    assert lines[..|lines|] == lines;
  }

  // ----- sequencing of subsequent events -----

  /** The B variable of one side of a leg: B+ for its start, B- for its arrival. */
  function BVar(leg: Leg, start: bool): Var
  {
    if start then BStart(leg.splitId) else BArr(leg.splitId)
  }

  /** The stop of one side of a leg. */
  function SideStop(leg: Leg, start: bool): Stop
  {
    if start then leg.pickUp else leg.dropOff
  }

  /** The (successor key, arc) pairs of the arcs out of e to leg events; arcs to an idle event are skipped. */
  function SuccPairsOf(e: Event, dsts: seq<Event>): seq<((Leg, bool), Var)>
  {
    if dsts == [] then []
    else
      var f := dsts[|dsts| - 1];
      SuccPairsOf(e, dsts[..|dsts| - 1]) + (if f.IdleEvent? then [] else [((f.first, f.PickUpEvent?), X(e, f))])
  }

  /** The successor pairs of the arcs out of several events (one side's events of a leg). */
  function SuccPairs(g: Graph, events: seq<Event>): seq<((Leg, bool), Var)>
    requires forall e :: e in events ==> e in g.edgeDict
  {
    if events == [] then []
    else
      var e := events[|events| - 1];
      SuccPairs(g, events[..|events| - 1]) + SuccPairsOf(e, g.edgeDict[e].outbound)
  }

  /** The events of one side of a leg: its pick-up events or its drop-off events. */
  function SideEvents(g: Graph, leg: Leg, start: bool): seq<Event>
    requires leg in g.requestDict
  {
    if start then g.requestDict[leg].pickUps else g.requestDict[leg].dropOffs
  }

  /**
   * The sequencing row from the `start` side of `leg` to the side of another leg named by a
   * group's key, gated by the group's arcs: -M on each arc, -1 on the first B, +1 on the
   * second, at least the service time - M + travel time + the first offset - the second.
   */
  function SeqRow(enc: Encoding, dur: (Stop, Stop) -> real, transfer: real, leg: Leg, start: bool,
                  grp: Group<(Leg, bool)>): Row
  {
    var other := grp.key.0;
    var otherStart := grp.key.1;
    var d := dur(SideStop(leg, start), SideStop(other, otherStart));
    var m := BigM(enc, leg, start, d, AddValue(enc, other, otherStart), transfer);
    Row(Terms(grp.arcs, -m) + [Term(BVar(leg, start), -1.0), Term(BVar(other, otherStart), 1.0)], Geq,
        ServiceTime(d, transfer) - m + d + AddValue(enc, leg, start) - AddValue(enc, other, otherStart))
  }

  /** A sequencing row holds exactly when the sequencing inequality holds for the sum of its gating arcs. */
  lemma SeqRowMeaning(enc: Encoding, dur: (Stop, Stop) -> real, transfer: real, leg: Leg, start: bool,
                      grp: Group<(Leg, bool)>, val: Var -> real)
    ensures var other := grp.key.0;
            var otherStart := grp.key.1;
            Holds(SeqRow(enc, dur, transfer, leg, start, grp), val) <==>
              SequencingHolds(enc, leg, start, other, otherStart, dur(SideStop(leg, start), SideStop(other, otherStart)),
                              transfer, SumOf(grp.arcs, val), val(BVar(leg, start)), val(BVar(other, otherStart)))
  {
    SeqRowLhs(enc, dur, transfer, leg, start, grp, val);
  }

  /** The left-hand side of a sequencing row: -M times the sum of its arcs, minus the first B, plus the second. */
  lemma SeqRowLhs(enc: Encoding, dur: (Stop, Stop) -> real, transfer: real, leg: Leg, start: bool,
                  grp: Group<(Leg, bool)>, val: Var -> real)
    ensures var d := dur(SideStop(leg, start), SideStop(grp.key.0, grp.key.1));
            var m := BigM(enc, leg, start, d, AddValue(enc, grp.key.0, grp.key.1), transfer);
            Lhs(SeqRow(enc, dur, transfer, leg, start, grp).terms, val) ==
              - m * SumOf(grp.arcs, val) - val(BVar(leg, start)) + val(BVar(grp.key.0, grp.key.1))
  {
    var other := grp.key.0;
    var otherStart := grp.key.1;
    var d := dur(SideStop(leg, start), SideStop(other, otherStart));
    var m := BigM(enc, leg, start, d, AddValue(enc, other, otherStart), transfer);
    var row := SeqRow(enc, dur, transfer, leg, start, grp);
    assert row.terms == Terms(grp.arcs, -m) + [Term(BVar(leg, start), -1.0), Term(BVar(other, otherStart), 1.0)];
    LhsGatedPair(grp.arcs, -m, Term(BVar(leg, start), -1.0), Term(BVar(other, otherStart), 1.0), val);
  }

  /** The weighted sum of two terms. */
  lemma LhsTwo(s: Term, t: Term, val: Var -> real)
    ensures Lhs([s, t], val) == s.coeff * val(s.v) + t.coeff * val(t.v)
  {
    assert [s][..0] == [];
    assert Lhs([s], val) == s.coeff * val(s.v);
    assert [s, t][..1] == [s];
    assert Lhs([s, t], val) == Lhs([s], val) + t.coeff * val(t.v);
  }

  /** The weighted sum of gating arcs with a common coefficient followed by two terms. */
  lemma {:induction false} LhsGatedPair(vs: seq<Var>, c: real, s: Term, t: Term, val: Var -> real)
    ensures Lhs(Terms(vs, c) + [s, t], val) == c * SumOf(vs, val) + s.coeff * val(s.v) + t.coeff * val(t.v)
  {
    LhsAppend(Terms(vs, c), [s, t], val);
    LhsTerms(vs, c, val);
    LhsTwo(s, t, val);
  }

  /** A sequencing row per group, in var_dict order. */
  function SeqRows(enc: Encoding, dur: (Stop, Stop) -> real, transfer: real, leg: Leg, start: bool,
                   groups: seq<Group<(Leg, bool)>>): (rows: seq<Row>)
    ensures |rows| == |groups| && forall i :: 0 <= i < |groups| ==> rows[i] == SeqRow(enc, dur, transfer, leg, start, groups[i])
  {
    seq(|groups|, i requires 0 <= i < |groups| => SeqRow(enc, dur, transfer, leg, start, groups[i]))
  }

  /** The events of every leg are keys of edge_dict. */
  predicate LegEventsKnown(g: Graph)
  {
    (forall l, e :: l in g.requestDict && e in g.requestDict[l].pickUps ==> e in g.edgeDict) &&
    (forall l, e :: l in g.requestDict && e in g.requestDict[l].dropOffs ==> e in g.edgeDict)
  }

  /** The var_dict of one side of a leg: its arcs to leg events, grouped by (successor leg, successor side). */
  function SideGroups(g: Graph, leg: Leg, start: bool): seq<Group<(Leg, bool)>>
    requires leg in g.requestDict && LegEventsKnown(g)
  {
    PutAll([], SuccPairs(g, SideEvents(g, leg, start)))
  }

  /** The sequencing rows of a leg: start side first, then arrival side (the order of {0, 1}). */
  function SeqRowsOfLeg(enc: Encoding, g: Graph, dur: (Stop, Stop) -> real, transfer: real, leg: Leg): seq<Row>
    requires leg in g.requestDict && LegEventsKnown(g)
  {
    SeqRows(enc, dur, transfer, leg, true, SideGroups(g, leg, true)) +
    SeqRows(enc, dur, transfer, leg, false, SideGroups(g, leg, false))
  }

  /** The sequencing rows of some legs. */
  function SeqRowsOfLegs(enc: Encoding, g: Graph, dur: (Stop, Stop) -> real, transfer: real, legs: seq<Leg>): seq<Row>
    requires LegEventsKnown(g) && forall l :: l in legs ==> l in g.requestDict
  {
    if legs == [] then []
    else SeqRowsOfLegs(enc, g, dur, transfer, legs[..|legs| - 1]) + SeqRowsOfLeg(enc, g, dur, transfer, legs[|legs| - 1])
  }

  /** A pair of the arcs out of e is an arc to a leg event, keyed by that event's leg and side. */
  lemma {:induction false} SuccPairsOfMembers(e: Event, dsts: seq<Event>, key: (Leg, bool), v: Var)
    ensures (key, v) in SuccPairsOf(e, dsts) <==>
              exists f :: f in dsts && !f.IdleEvent? && key == (f.first, f.PickUpEvent?) && v == X(e, f)
    decreases |dsts|
  {
    if dsts != [] {
      var init := dsts[..|dsts| - 1];
      var f := dsts[|dsts| - 1];
      SuccPairsOfMembers(e, init, key, v);
      if exists f' :: f' in init && !f'.IdleEvent? && key == (f'.first, f'.PickUpEvent?) && v == X(e, f') {
        var f' :| f' in init && !f'.IdleEvent? && key == (f'.first, f'.PickUpEvent?) && v == X(e, f');
        assert f' in dsts;
      }
      if exists f' :: f' in dsts && !f'.IdleEvent? && key == (f'.first, f'.PickUpEvent?) && v == X(e, f') {
        var f' :| f' in dsts && !f'.IdleEvent? && key == (f'.first, f'.PickUpEvent?) && v == X(e, f');
        if f' != f {
          assert f' in init;
        }
      }
    }
  }

  /** A pair of a side's events is an arc from one of them to a leg event. */
  lemma {:induction false} SuccPairsMembers(g: Graph, events: seq<Event>, key: (Leg, bool), v: Var)
    requires forall e :: e in events ==> e in g.edgeDict
    ensures (key, v) in SuccPairs(g, events) <==>
              exists e, f :: e in events && f in g.edgeDict[e].outbound && !f.IdleEvent? &&
                             key == (f.first, f.PickUpEvent?) && v == X(e, f)
    decreases |events|
  {
    if events != [] {
      var init := events[..|events| - 1];
      var e := events[|events| - 1];
      SuccPairsMembers(g, init, key, v);
      SuccPairsOfMembers(e, g.edgeDict[e].outbound, key, v);
      if exists e', f :: e' in init && f in g.edgeDict[e'].outbound && !f.IdleEvent? &&
                         key == (f.first, f.PickUpEvent?) && v == X(e', f) {
        var e', f :| e' in init && f in g.edgeDict[e'].outbound && !f.IdleEvent? &&
                     key == (f.first, f.PickUpEvent?) && v == X(e', f);
        assert e' in events;
      }
      if exists e', f :: e' in events && f in g.edgeDict[e'].outbound && !f.IdleEvent? &&
                         key == (f.first, f.PickUpEvent?) && v == X(e', f) {
        var e', f :| e' in events && f in g.edgeDict[e'].outbound && !f.IdleEvent? &&
                     key == (f.first, f.PickUpEvent?) && v == X(e', f);
        if e' != e {
          assert e' in init;
        }
      }
    }
  }

  /** The arcs a list of pairs collects for a key are the arcs of its pairs with that key. */
  lemma {:induction false} MatchingMembers<K>(ps: seq<(K, Var)>, k: K, v: Var)
    ensures v in Matching(ps, k) <==> (k, v) in ps
    decreases |ps|
  {
    if ps != [] {
      MatchingMembers(ps[..|ps| - 1], k, v);
      assert ps == ps[..|ps| - 1] + [ps[|ps| - 1]];
    }
  }

  /**
   * A sequencing row of a leg's side is gated by exactly the arcs from that side's events to
   * events of the key's leg and side, and there is a row for every such successor.
   */
  lemma {:induction false} SideGroupsExact(g: Graph, leg: Leg, start: bool, key: (Leg, bool), v: Var)
    requires leg in g.requestDict && LegEventsKnown(g)
    ensures UniqueKeys(SideGroups(g, leg, start))
    ensures v in ArcsFor(SideGroups(g, leg, start), key) <==>
              exists e, f :: e in SideEvents(g, leg, start) && f in g.edgeDict[e].outbound && !f.IdleEvent? &&
                             key == (f.first, f.PickUpEvent?) && v == X(e, f)
    ensures key in KeysOf(SideGroups(g, leg, start)) <==>
              exists e, f :: e in SideEvents(g, leg, start) && f in g.edgeDict[e].outbound && !f.IdleEvent? &&
                             key == (f.first, f.PickUpEvent?)
  {
    var ps := SuccPairs(g, SideEvents(g, leg, start));
    PutAllSpec([], ps);
    MatchingMembers(ps, key, v);
    SuccPairsMembers(g, SideEvents(g, leg, start), key, v);
    if exists p :: p in ps && p.0 == key {
      var p :| p in ps && p.0 == key;
      SuccPairsMembers(g, SideEvents(g, leg, start), key, p.1);
    }
    if exists e, f :: e in SideEvents(g, leg, start) && f in g.edgeDict[e].outbound && !f.IdleEvent? &&
                      key == (f.first, f.PickUpEvent?) {
      var e, f :| e in SideEvents(g, leg, start) && f in g.edgeDict[e].outbound && !f.IdleEvent? &&
                  key == (f.first, f.PickUpEvent?);
      SuccPairsMembers(g, SideEvents(g, leg, start), key, X(e, f));
      assert (key, X(e, f)) in ps;
    }
  }

  /** The loop over the arcs out of one event, filling the var_dict. */
  method PutSuccessors(d0: seq<Group<(Leg, bool)>>, e: Event, dsts: seq<Event>) returns (d: seq<Group<(Leg, bool)>>)
    ensures d == PutAll(d0, SuccPairsOf(e, dsts))
  {
    d := d0;
    for i := 0 to |dsts|
      invariant d == PutAll(d0, SuccPairsOf(e, dsts[..i]))
    {
      var f := dsts[i];
      assert dsts[..i + 1][..i] == dsts[..i];
      if !f.IdleEvent? {
        d := PutArc(d, (f.first, f.PickUpEvent?), X(e, f));
        assert SuccPairsOf(e, dsts[..i + 1]) == SuccPairsOf(e, dsts[..i]) + [((f.first, f.PickUpEvent?), X(e, f))];
        PutAllSnoc(d0, SuccPairsOf(e, dsts[..i]), ((f.first, f.PickUpEvent?), X(e, f)));
        assert d == PutAll(d0, SuccPairsOf(e, dsts[..i + 1]));
      } else {
        assert SuccPairsOf(e, dsts[..i + 1]) == SuccPairsOf(e, dsts[..i]);
        assert d == PutAll(d0, SuccPairsOf(e, dsts[..i + 1]));
      }
    }
    assert dsts[..|dsts|] == dsts;
  }

  /** Putting one more pair. */
  lemma {:induction false} PutAllSnoc<K>(d: seq<Group<K>>, ps: seq<(K, Var)>, p: (K, Var))
    ensures PutAll(d, ps + [p]) == PutArc(PutAll(d, ps), p.0, p.1)
  {
    assert (ps + [p])[..|ps|] == ps;
  }

  /** Putting two lists one after the other. */
  lemma {:induction false} PutAllAppend<K>(d: seq<Group<K>>, ps: seq<(K, Var)>, qs: seq<(K, Var)>)
    ensures PutAll(d, ps + qs) == PutAll(PutAll(d, ps), qs)
    decreases |qs|
  {
    if qs == [] {
      assert ps + qs == ps;
    } else {
      var init := qs[..|qs| - 1];
      assert (ps + qs)[..|ps + qs| - 1] == ps + init;
      PutAllAppend(d, ps, init);
    }
  }

  /** The loops over one side's events and their outbound arcs, filling the var_dict. */
  method FillSideGroups(g: Graph, leg: Leg, start: bool) returns (d: seq<Group<(Leg, bool)>>)
    requires leg in g.requestDict && LegEventsKnown(g)
    ensures d == SideGroups(g, leg, start)
  {
    var events := SideEvents(g, leg, start);
    d := [];
    for i := 0 to |events|
      invariant d == PutAll([], SuccPairs(g, events[..i]))
    {
      var e := events[i];
      assert events[..i + 1][..i] == events[..i];
      PutAllAppend([], SuccPairs(g, events[..i]), SuccPairsOf(e, g.edgeDict[e].outbound));
      d := PutSuccessors(d, e, g.edgeDict[e].outbound);
    }
    assert events[..|events|] == events;
  }

  /** The loop over the var_dict adding one side's sequencing rows. */
  method AddSeqRows(enc: Encoding, dur: (Stop, Stop) -> real, transfer: real, leg: Leg, start: bool,
                    groups: seq<Group<(Leg, bool)>>) returns (rows: seq<Row>)
    ensures rows == SeqRows(enc, dur, transfer, leg, start, groups)
  {
    rows := [];
    for k := 0 to |groups|
      invariant |rows| == k && forall i :: 0 <= i < k ==> rows[i] == SeqRow(enc, dur, transfer, leg, start, groups[i])
    {
      rows := rows + [SeqRow(enc, dur, transfer, leg, start, groups[k])];
    }
  }

  /** The sequencing rows of one leg: its start side's, then its arrival side's. */
  method AddLegSeqRows(enc: Encoding, g: Graph, dur: (Stop, Stop) -> real, transfer: real, leg: Leg)
    returns (rows: seq<Row>)
    requires leg in g.requestDict && LegEventsKnown(g)
    ensures rows == SeqRowsOfLeg(enc, g, dur, transfer, leg)
  {
    var startGroups := FillSideGroups(g, leg, true);
    var startRows := AddSeqRows(enc, dur, transfer, leg, true, startGroups);
    var arrGroups := FillSideGroups(g, leg, false);
    var arrRows := AddSeqRows(enc, dur, transfer, leg, false, arrGroups);
    rows := startRows + arrRows;
  }

  /** The rows of one more leg come after those of the legs before it. */
  lemma {:induction false} SeqRowsOfLegsSnoc(enc: Encoding, g: Graph, dur: (Stop, Stop) -> real, transfer: real, legs: seq<Leg>, i: nat)
    requires LegEventsKnown(g) && i < |legs| && forall l :: l in legs ==> l in g.requestDict
    ensures SeqRowsOfLegs(enc, g, dur, transfer, legs[..i + 1]) ==
            SeqRowsOfLegs(enc, g, dur, transfer, legs[..i]) + SeqRowsOfLeg(enc, g, dur, transfer, legs[i])
  {
    assert legs[..i + 1][..i] == legs[..i];
  }

  /** The sequencing loop over the legs of request_dict and their two sides. */
  method AddSequencingRows(enc: Encoding, g: Graph, dur: (Stop, Stop) -> real, transfer: real) returns (rows: seq<Row>)
    requires KeysListed(g) && LegEventsKnown(g)
    ensures rows == SeqRowsOfLegs(enc, g, dur, transfer, g.legOrder)
  {
    rows := [];
    var legs := g.legOrder;
    for i := 0 to |legs|
      invariant rows == SeqRowsOfLegs(enc, g, dur, transfer, legs[..i])
    {
      var legRows := AddLegSeqRows(enc, g, dur, transfer, legs[i]);
      SeqRowsOfLegsSnoc(enc, g, dur, transfer, legs, i);
      rows := rows + legRows;
    }
    assert legs[..|legs|] == legs;
  }

  // ----- ride time, leg chaining and option choice per request -----

  /** Every option of the request has at least one leg (its first and last legs are indexed). */
  predicate OptionsHaveLegs(req: Request)
  {
    forall o :: o in req.options ==> |o.legs| > 0
  }

  /** The first and the last leg of an option. */
  function Ends(o: RouteOption): (Leg, Leg)
    requires |o.legs| > 0
  {
    (o.legs[0], o.legs[|o.legs| - 1])
  }

  /** The longest ride the request allows: latest arrival minus latest start, in minutes. */
  function MaxRideTime(req: Request): real
  {
    GetInMinutes(Sub(req.latestArr, req.latestStart))
  }

  /** The ride-time row of a first and a last leg: -B+ of the first, +B- of the last, at most the longest ride plus the offsets. */
  function RideRow(enc: Encoding, req: Request, first: Leg, last: Leg): Row
  {
    Row([Term(BStart(first.splitId), -1.0), Term(BArr(last.splitId), 1.0)], Leq,
        MaxRideTime(req) + AddValue(enc, first, true) - AddValue(enc, last, false))
  }

  /** The ride from the first leg's start to the last leg's arrival, in clock time, is within the longest ride. */
  predicate RideWithin(enc: Encoding, req: Request, first: Leg, last: Leg, val: Var -> real)
  {
    (val(BArr(last.splitId)) + AddValue(enc, last, false)) - (val(BStart(first.splitId)) + AddValue(enc, first, true))
      <= MaxRideTime(req)
  }

  /** A ride-time row holds exactly when the clock time from the first leg's start to the last leg's arrival is within the longest ride. */
  lemma RideRowMeaning(enc: Encoding, req: Request, first: Leg, last: Leg, val: Var -> real)
    ensures Holds(RideRow(enc, req, first, last), val) <==> RideWithin(enc, req, first, last, val)
  {
    LhsTwo(Term(BStart(first.splitId), -1.0), Term(BArr(last.splitId), 1.0), val);
  }

  /** The chaining row of two subsequent legs: -B- of the earlier, +B+ of the later, at least the difference of the offsets. */
  function ChainRow(enc: Encoding, prev: Leg, sub: Leg): Row
  {
    Row([Term(BArr(prev.splitId), -1.0), Term(BStart(sub.splitId), 1.0)], Geq,
        AddValue(enc, prev, false) - AddValue(enc, sub, true))
  }

  /** A chaining row holds exactly when the later leg starts, in clock time, no earlier than the earlier leg arrives. */
  lemma ChainRowMeaning(enc: Encoding, prev: Leg, sub: Leg, val: Var -> real)
    ensures Holds(ChainRow(enc, prev, sub), val) <==>
              val(BStart(sub.splitId)) + AddValue(enc, sub, true) >= val(BArr(prev.splitId)) + AddValue(enc, prev, false)
  {
    LhsTwo(Term(BArr(prev.splitId), -1.0), Term(BStart(sub.splitId), 1.0), val);
  }

  /** The chaining rows of an option's legs, one per pair of subsequent legs. */
  function ChainRows(enc: Encoding, legs: seq<Leg>): (rows: seq<Row>)
    requires |legs| > 0
    ensures |rows| == |legs| - 1 && forall i :: 0 <= i < |rows| ==> rows[i] == ChainRow(enc, legs[i], legs[i + 1])
  {
    seq(|legs| - 1, i requires 0 <= i < |legs| - 1 => ChainRow(enc, legs[i], legs[i + 1]))
  }

  /** The z variables of some options of a request. */
  function ZVars(req: Request, opts: seq<RouteOption>): (vs: seq<Var>)
    ensures |vs| == |opts| && forall i :: 0 <= i < |opts| ==> vs[i] == Z(req.id, opts[i].key)
  {
    seq(|opts|, i requires 0 <= i < |opts| => Z(req.id, opts[i].key))
  }

  /** The choice row of a request: +1 on each option's z, -1 on q, equal to 0. */
  function ZRow(req: Request): Row
  {
    Row(Terms(ZVars(req, req.options), 1.0) + [Term(Q(req.id), -1.0)], Eq, 0.0)
  }

  /** A choice row holds exactly when the chosen options add up to the acceptance of the request. */
  lemma ZRowMeaning(req: Request, val: Var -> real)
    ensures Holds(ZRow(req), val) <==> SumOf(ZVars(req, req.options), val) == val(Q(req.id))
  {
    var zs := ZVars(req, req.options);
    var row := ZRow(req);
    assert row.terms == Terms(zs, 1.0) + [Term(Q(req.id), -1.0)] && row.sense == Eq && row.rhs == 0.0;
    LhsAppend(Terms(zs, 1.0), [Term(Q(req.id), -1.0)], val);
    LhsTerms(zs, 1.0, val);
    assert Lhs([Term(Q(req.id), -1.0)], val) == -1.0 * val(Q(req.id));
    assert Lhs(row.terms, val) == SumOf(zs, val) - val(Q(req.id));
  }

  /**
   * The timing rows of some options of a request and the (first, last) pairs seen: option by
   * option, a ride-time row when the option's pair is new, then its chaining rows.
   */
  function TimingRowsOf(enc: Encoding, req: Request, opts: seq<RouteOption>): (seq<Row>, set<(Leg, Leg)>)
    requires forall o :: o in opts ==> |o.legs| > 0
  {
    if opts == [] then ([], {})
    else
      var prev := TimingRowsOf(enc, req, opts[..|opts| - 1]);
      var o := opts[|opts| - 1];
      var p := Ends(o);
      var ride := if p in prev.1 then [] else [RideRow(enc, req, p.0, p.1)];
      (prev.0 + ride + ChainRows(enc, o.legs), prev.1 + {p})
  }

  /** The rows of a request: its timing rows, then its choice row. */
  function RequestRows(enc: Encoding, req: Request): seq<Row>
    requires OptionsHaveLegs(req)
  {
    TimingRowsOf(enc, req, req.options).0 + [ZRow(req)]
  }

  /** The rows of some requests, request by request. */
  function AllRequestRows(enc: Encoding, requests: seq<Request>): seq<Row>
    requires forall r :: r in requests ==> OptionsHaveLegs(r)
  {
    if requests == [] then []
    else AllRequestRows(enc, requests[..|requests| - 1]) + RequestRows(enc, requests[|requests| - 1])
  }

  /** The pairs of first and last legs of some options. */
  function EndsOf(opts: seq<RouteOption>): set<(Leg, Leg)>
    requires forall o :: o in opts ==> |o.legs| > 0
  {
    set o | o in opts :: Ends(o)
  }

  /** The number of at-most rows: among the timing rows these are the ride-time rows. */
  function RideCount(rows: seq<Row>): nat
  {
    if rows == [] then 0 else RideCount(rows[..|rows| - 1]) + (if rows[|rows| - 1].sense == Leq then 1 else 0)
  }

  lemma {:induction false} RideCountAppend(a: seq<Row>, b: seq<Row>)
    ensures RideCount(a + b) == RideCount(a) + RideCount(b)
    decreases |b|
  {
    if b == [] {
      assert a + b == a;
    } else {
      assert (a + b)[..|a + b| - 1] == a + b[..|b| - 1];
      RideCountAppend(a, b[..|b| - 1]);
    }
  }

  lemma {:induction false} ChainRowsNoRide(enc: Encoding, legs: seq<Leg>)
    requires |legs| > 0
    ensures RideCount(ChainRows(enc, legs)) == 0
    decreases |legs|
  {
    var rows := ChainRows(enc, legs);
    if |legs| > 1 {
      var init := legs[..|legs| - 1];
      ChainRowsNoRide(enc, init);
      assert rows[..|rows| - 1] == ChainRows(enc, init);
      assert rows[|rows| - 1].sense == Geq;
    }
  }

  /** found_tuples ends up holding the (first, last) pair of every option. */
  lemma {:induction false} FoundIsEnds(enc: Encoding, req: Request, opts: seq<RouteOption>)
    requires forall o :: o in opts ==> |o.legs| > 0
    ensures TimingRowsOf(enc, req, opts).1 == EndsOf(opts)
    decreases |opts|
  {
    if opts != [] {
      var init := opts[..|opts| - 1];
      FoundIsEnds(enc, req, init);
      FoundStep(enc, req, opts);
      EndsOfLast(opts);
    }
  }

  /** One more option adds its pair to the pairs seen. */
  lemma {:induction false} FoundStep(enc: Encoding, req: Request, opts: seq<RouteOption>)
    requires forall o :: o in opts ==> |o.legs| > 0
    requires opts != []
    ensures TimingRowsOf(enc, req, opts).1 ==
            TimingRowsOf(enc, req, opts[..|opts| - 1]).1 + {Ends(opts[|opts| - 1])}
  {
  }

  /** The pairs of some options are those of all but the last, and the last one's. */
  lemma EndsOfLast(opts: seq<RouteOption>)
    requires forall o :: o in opts ==> |o.legs| > 0
    requires opts != []
    ensures EndsOf(opts) == EndsOf(opts[..|opts| - 1]) + {Ends(opts[|opts| - 1])}
  {
    assert opts == opts[..|opts| - 1] + [opts[|opts| - 1]];
    EndsOfSnoc(opts[..|opts| - 1], opts[|opts| - 1]);
  }

  /** One more option adds its pair to the pairs. */
  lemma EndsOfSnoc(init: seq<RouteOption>, o: RouteOption)
    requires forall x :: x in init ==> |x.legs| > 0
    requires |o.legs| > 0
    ensures EndsOf(init + [o]) == EndsOf(init) + {Ends(o)}
  {
    assert forall x :: x in init + [o] <==> x in init || x == o;
  }

  /** There are exactly as many ride-time (at-most) rows as distinct (first, last) pairs. */
  lemma {:induction false} RideRowsCountPairs(enc: Encoding, req: Request, opts: seq<RouteOption>)
    requires forall o :: o in opts ==> |o.legs| > 0
    ensures RideCount(TimingRowsOf(enc, req, opts).0) == |EndsOf(opts)|
    decreases |opts|
  {
    FoundIsEnds(enc, req, opts);
    if opts != [] {
      var init := opts[..|opts| - 1];
      var o := opts[|opts| - 1];
      RideRowsCountPairs(enc, req, init);
      FoundIsEnds(enc, req, init);
      var prev := TimingRowsOf(enc, req, init);
      var p := Ends(o);
      ChainRowsNoRide(enc, o.legs);
      RideCountStep(prev.0, prev.1, p, RideRow(enc, req, p.0, p.1), ChainRows(enc, o.legs));
    }
  }

  /** One option's rows add a ride row exactly when its pair of ends is new. */
  lemma RideCountStep(rows: seq<Row>, found: set<(Leg, Leg)>, p: (Leg, Leg), ride: Row, chain: seq<Row>)
    requires RideCount(rows) == |found| && ride.sense == Leq && RideCount(chain) == 0
    ensures RideCount(rows + (if p in found then [] else [ride]) + chain) == |found + {p}|
  {
    var added := if p in found then [] else [ride];
    RideCountAppend(rows + added, chain);
    RideCountAppend(rows, added);
    if p !in found {
      assert RideCount(added) == 1 by {
        assert added[..0] == [];
      }
    } else {
      assert found + {p} == found;
    }
  }

  /** Every distinct (first, last) pair has its ride-time row. */
  lemma {:induction false} RideRowsPresent(enc: Encoding, req: Request, opts: seq<RouteOption>, q: (Leg, Leg))
    requires forall o :: o in opts ==> |o.legs| > 0
    requires q in EndsOf(opts)
    ensures RideRow(enc, req, q.0, q.1) in TimingRowsOf(enc, req, opts).0
    decreases |opts|
  {
    var init := opts[..|opts| - 1];
    var o := opts[|opts| - 1];
    FoundIsEnds(enc, req, init);
    var prev := TimingRowsOf(enc, req, init);
    var p := Ends(o);
    var ride := if p in prev.1 then [] else [RideRow(enc, req, p.0, p.1)];
    assert TimingRowsOf(enc, req, opts).0 == prev.0 + ride + ChainRows(enc, o.legs);
    var o' :| o' in opts && Ends(o') == q;
    if o' != o {
      assert o' in init;
      assert q in EndsOf(init);
      RideRowsPresent(enc, req, init, q);
      assert RideRow(enc, req, q.0, q.1) in prev.0;
    } else if p in prev.1 {
      assert q in EndsOf(init);
      RideRowsPresent(enc, req, init, q);
      assert RideRow(enc, req, q.0, q.1) in prev.0;
    } else {
      assert ride == [RideRow(enc, req, q.0, q.1)];
    }
  }

  /** Every pair of subsequent legs of every option has its chaining row. */
  lemma {:induction false} ChainRowsPresent(enc: Encoding, req: Request, opts: seq<RouteOption>, o: RouteOption, i: nat)
    requires forall o :: o in opts ==> |o.legs| > 0
    requires o in opts && i + 1 < |o.legs|
    ensures ChainRow(enc, o.legs[i], o.legs[i + 1]) in TimingRowsOf(enc, req, opts).0
    decreases |opts|
  {
    var init := opts[..|opts| - 1];
    var prev := TimingRowsOf(enc, req, init);
    var last := opts[|opts| - 1];
    var p := Ends(last);
    var ride := if p in prev.1 then [] else [RideRow(enc, req, p.0, p.1)];
    assert TimingRowsOf(enc, req, opts).0 == prev.0 + ride + ChainRows(enc, last.legs);
    if o == last {
      assert ChainRows(enc, o.legs)[i] == ChainRow(enc, o.legs[i], o.legs[i + 1]);
    } else {
      assert o in init;
      ChainRowsPresent(enc, req, init, o, i);
    }
  }

  /** The chaining loop of one option. */
  method AddChainRows(enc: Encoding, legs: seq<Leg>) returns (rows: seq<Row>)
    requires |legs| > 0
    ensures rows == ChainRows(enc, legs)
  {
    rows := [];
    for i := 0 to |legs| - 1
      invariant |rows| == i && forall k :: 0 <= k < i ==> rows[k] == ChainRow(enc, legs[k], legs[k + 1])
    {
      rows := rows + [ChainRow(enc, legs[i], legs[i + 1])];
    }
  }

  /**
   * One option of the loop over a request's options: a ride-time row when its (first, last)
   * pair is not in found_tuples yet, which it joins, then the option's chaining rows.
   */
  method AddOneOptionRows(enc: Encoding, req: Request, o: RouteOption, rows0: seq<Row>, found0: set<(Leg, Leg)>)
    returns (rows: seq<Row>, found: set<(Leg, Leg)>)
    requires |o.legs| > 0
    ensures var p := Ends(o);
            rows == rows0 + (if p in found0 then [] else [RideRow(enc, req, p.0, p.1)]) + ChainRows(enc, o.legs)
    ensures found == found0 + {Ends(o)}
  {
    found, rows := found0, rows0;
    var first, last := o.legs[0], o.legs[|o.legs| - 1];
    if (first, last) !in found {
      found := found + {(first, last)};
      rows := rows + [RideRow(enc, req, first, last)];
    } else {
      assert found + {(first, last)} == found;
      assert rows + [] == rows;
    }
    var chain := AddChainRows(enc, o.legs);
    rows := rows + chain;
  }

  /** The timing rows of one more option come after those of the options before it. */
  lemma {:induction false} TimingRowsSnoc(enc: Encoding, req: Request, opts: seq<RouteOption>, j: nat)
    requires forall o :: o in opts ==> |o.legs| > 0
    requires j < |opts|
    ensures var prev := TimingRowsOf(enc, req, opts[..j]);
            var p := Ends(opts[j]);
            TimingRowsOf(enc, req, opts[..j + 1]) ==
              (prev.0 + (if p in prev.1 then [] else [RideRow(enc, req, p.0, p.1)]) + ChainRows(enc, opts[j].legs),
               prev.1 + {p})
  {
    assert opts[..j + 1][..j] == opts[..j];
  }

  /** The loop over the options of one request, keeping found_tuples, then the choice row. */
  method AddRequestRows(enc: Encoding, req: Request) returns (rows: seq<Row>)
    requires OptionsHaveLegs(req)
    ensures rows == RequestRows(enc, req)
  {
    var found: set<(Leg, Leg)> := {};
    rows := [];
    for j := 0 to |req.options|
      invariant (rows, found) == TimingRowsOf(enc, req, req.options[..j])
    {
      TimingRowsSnoc(enc, req, req.options, j);
      rows, found := AddOneOptionRows(enc, req, req.options[j], rows, found);
    }
    assert req.options[..|req.options|] == req.options;
    rows := rows + [ZRow(req)];
  }

  /** The loop over the requests. */
  method AddAllRequestRows(enc: Encoding, requests: seq<Request>) returns (rows: seq<Row>)
    requires forall r :: r in requests ==> OptionsHaveLegs(r)
    ensures rows == AllRequestRows(enc, requests)
  {
    rows := [];
    for i := 0 to |requests|
      invariant rows == AllRequestRows(enc, requests[..i])
    {
      assert requests[..i + 1][..i] == requests[..i];
      var more := AddRequestRows(enc, requests[i]);
      rows := rows + more;
    }
    assert requests[..|requests|] == requests;
  }

  // ----- variables -----

  /** The type of a variable: binary, or continuous between bounds. */
  datatype Kind = Binary | Continuous(bounds: Bounds)

  datatype VarDecl = VarDecl(v: Var, kind: Kind)

  /** q for every request. */
  function QVars(requests: seq<Request>): (vs: seq<Var>)
    ensures |vs| == |requests| && forall i :: 0 <= i < |requests| ==> vs[i] == Q(requests[i].id)
  {
    seq(|requests|, i requires 0 <= i < |requests| => Q(requests[i].id))
  }

  /** Binary declarations of some variables. */
  function Binaries(vs: seq<Var>): (ds: seq<VarDecl>)
    ensures |ds| == |vs| && forall i :: 0 <= i < |vs| ==> ds[i] == VarDecl(vs[i], Binary)
  {
    seq(|vs|, i requires 0 <= i < |vs| => VarDecl(vs[i], Binary))
  }

  /** z for every option of every request, request by request. */
  function OptionVars(requests: seq<Request>): seq<Var>
  {
    if requests == [] then []
    else
      var r := requests[|requests| - 1];
      OptionVars(requests[..|requests| - 1]) + ZVars(r, r.options)
  }

  /** The two declarations of a leg: B+ and B- with the bounds create_variables gives them. */
  function LegDecl(enc: Encoding, leg: Leg): seq<VarDecl>
  {
    var b := CreateVariables(enc, leg);
    [VarDecl(BStart(leg.splitId), Continuous(b.start)), VarDecl(BArr(leg.splitId), Continuous(b.arrival))]
  }

  /** B+ and B- for some legs. */
  function LegDecls(enc: Encoding, legs: seq<Leg>): seq<VarDecl>
  {
    if legs == [] then [] else LegDecls(enc, legs[..|legs| - 1]) + LegDecl(enc, legs[|legs| - 1])
  }

  /** The outbound events of an event, none for an event that is not a key. */
  function Outbound(g: Graph, e: Event): seq<Event>
  {
    if e in g.edgeDict then g.edgeDict[e].outbound else []
  }

  /** x for every arc, event by event. */
  function AllArcs(g: Graph, events: seq<Event>): seq<Var>
  {
    if events == [] then []
    else
      var e := events[|events| - 1];
      AllArcs(g, events[..|events| - 1]) + ArcsOutOf(e, Outbound(g, e))
  }

  /** The declared variables: q, z, B+ and B-, x, in the order they are added. */
  function Variables(enc: Encoding, g: Graph, requests: seq<Request>): seq<VarDecl>
  {
    Binaries(QVars(requests)) + Binaries(OptionVars(requests)) + LegDecls(enc, g.legOrder) + Binaries(AllArcs(g, g.eventOrder))
  }

  /** The arc variables are exactly the arcs of the listed events. */
  lemma {:induction false} AllArcsExact(g: Graph, events: seq<Event>, a: Event, b: Event)
    ensures X(a, b) in AllArcs(g, events) <==> a in events && b in Outbound(g, a)
    ensures forall v :: v in AllArcs(g, events) ==> v.X?
    decreases |events|
  {
    if events != [] {
      var init := events[..|events| - 1];
      var e := events[|events| - 1];
      AllArcsExact(g, init, a, b);
      var outs := ArcsOutOf(e, Outbound(g, e));
      assert AllArcs(g, events) == AllArcs(g, init) + outs;
      if a == e && b in Outbound(g, e) {
        var k :| 0 <= k < |Outbound(g, e)| && Outbound(g, e)[k] == b;
        assert outs[k] == X(a, b);
      }
      if X(a, b) in outs {
        var k :| 0 <= k < |outs| && outs[k] == X(a, b);
      }
      assert events == init + [e];
    }
  }

  /** The z variables are exactly the (request, option key) pairs of the requests. */
  lemma {:induction false} OptionVarsExact(requests: seq<Request>, id: int, key: int)
    ensures Z(id, key) in OptionVars(requests) <==>
              exists r, o :: r in requests && o in r.options && r.id == id && o.key == key
    decreases |requests|
  {
    if requests != [] {
      var init := requests[..|requests| - 1];
      var r := requests[|requests| - 1];
      OptionVarsExact(init, id, key);
      var zs := ZVars(r, r.options);
      assert OptionVars(requests) == OptionVars(init) + zs;
      if Z(id, key) in zs {
        var k :| 0 <= k < |zs| && zs[k] == Z(id, key);
        assert r in requests && r.options[k] in r.options;
      }
      if exists r', o :: r' in requests && o in r'.options && r'.id == id && o.key == key {
        var r', o :| r' in requests && o in r'.options && r'.id == id && o.key == key;
        if r' == r {
          var k :| 0 <= k < |r.options| && r.options[k] == o;
          assert zs[k] == Z(id, key);
        } else {
          assert r' in init;
        }
      }
      if exists r', o :: r' in init && o in r'.options && r'.id == id && o.key == key {
        var r', o :| r' in init && o in r'.options && r'.id == id && o.key == key;
        assert r' in requests;
      }
    }
  }

  /** Every listed leg gets both of its variables, with the bounds create_variables gives them. */
  lemma {:induction false} LegDeclsPresent(enc: Encoding, legs: seq<Leg>, l: Leg)
    requires l in legs
    ensures VarDecl(BStart(l.splitId), Continuous(CreateVariables(enc, l).start)) in LegDecls(enc, legs)
    ensures VarDecl(BArr(l.splitId), Continuous(CreateVariables(enc, l).arrival)) in LegDecls(enc, legs)
    decreases |legs|
  {
    var init := legs[..|legs| - 1];
    assert LegDecls(enc, legs) == LegDecls(enc, init) + LegDecl(enc, legs[|legs| - 1]);
    if l != legs[|legs| - 1] {
      assert l in init;
      LegDeclsPresent(enc, init, l);
    }
  }

  /** The loop adding binary variables one by one. */
  method DeclareBinaries(vs: seq<Var>) returns (r: seq<VarDecl>)
    ensures r == Binaries(vs)
  {
    r := [];
    for i := 0 to |vs|
      invariant r == Binaries(vs[..i])
    {
      assert Binaries(vs[..i + 1]) == Binaries(vs[..i]) + [VarDecl(vs[i], Binary)];
      r := r + [VarDecl(vs[i], Binary)];
    }
    assert vs[..|vs|] == vs;
  }

  lemma BinariesAppend(a: seq<Var>, b: seq<Var>)
    ensures Binaries(a + b) == Binaries(a) + Binaries(b)
  {
    assert |Binaries(a + b)| == |Binaries(a) + Binaries(b)|;
    forall i | 0 <= i < |a + b|
      ensures Binaries(a + b)[i] == (Binaries(a) + Binaries(b))[i]
    {
      if i < |a| {
        assert (a + b)[i] == a[i];
      } else {
        assert (a + b)[i] == b[i - |a|];
      }
    }
  }

  lemma OptionVarsSnoc(requests: seq<Request>, i: nat)
    requires i < |requests|
    ensures Binaries(OptionVars(requests[..i + 1])) ==
            Binaries(OptionVars(requests[..i])) + Binaries(ZVars(requests[i], requests[i].options))
  {
    assert requests[..i + 1][..i] == requests[..i];
    BinariesAppend(OptionVars(requests[..i]), ZVars(requests[i], requests[i].options));
  }

  /** The z loop: for each request, a binary z per option key. */
  method DeclareOptionVars(requests: seq<Request>) returns (r: seq<VarDecl>)
    ensures r == Binaries(OptionVars(requests))
  {
    r := [];
    for i := 0 to |requests|
      invariant r == Binaries(OptionVars(requests[..i]))
    {
      OptionVarsSnoc(requests, i);
      var more := DeclareBinaries(ZVars(requests[i], requests[i].options));
      r := r + more;
    }
    assert requests[..|requests|] == requests;
  }

  /** The B loop over the keys of request_dict. */
  method DeclareLegVars(enc: Encoding, legs: seq<Leg>) returns (r: seq<VarDecl>)
    ensures r == LegDecls(enc, legs)
  {
    r := [];
    for i := 0 to |legs|
      invariant r == LegDecls(enc, legs[..i])
    {
      assert legs[..i + 1][..i] == legs[..i];
      r := r + LegDecl(enc, legs[i]);
    }
    assert legs[..|legs|] == legs;
  }

  lemma {:induction false} AllArcsSnoc(g: Graph, events: seq<Event>, i: nat)
    requires i < |events|
    ensures Binaries(AllArcs(g, events[..i + 1])) ==
            Binaries(AllArcs(g, events[..i])) + Binaries(ArcsOutOf(events[i], Outbound(g, events[i])))
  {
    assert events[..i + 1][..i] == events[..i];
    BinariesAppend(AllArcs(g, events[..i]), ArcsOutOf(events[i], Outbound(g, events[i])));
  }

  /** The x loop over the keys of edge_dict and their outbound events. */
  method DeclareArcVars(g: Graph) returns (r: seq<VarDecl>)
    ensures r == Binaries(AllArcs(g, g.eventOrder))
  {
    r := [];
    var events := g.eventOrder;
    for i := 0 to |events|
      invariant r == Binaries(AllArcs(g, events[..i]))
    {
      AllArcsSnoc(g, events, i);
      var more := DeclareBinaries(ArcsOutOf(events[i], Outbound(g, events[i])));
      r := r + more;
    }
    assert events[..|events|] == events;
  }

  /** The variable part of build_model: q, then z per option, then B per leg, then x per arc. */
  method DeclareVariables(enc: Encoding, g: Graph, requests: seq<Request>) returns (decls: seq<VarDecl>)
    ensures decls == Variables(enc, g, requests)
  {
    var zs := DeclareOptionVars(requests);
    var bs := DeclareLegVars(enc, g.legOrder);
    var xs := DeclareArcVars(g);
    decls := Binaries(QVars(requests)) + zs + bs + xs;
  }

  // ----- objective -----

  /** The rejection penalty: int(4 * network size) * number of requests * number of buses squared. */
  function Penalty(networkSize: real, nRequests: nat, nBuses: nat): int
  {
    Trunc(4.0 * networkSize) * nRequests * nBuses * nBuses
  }

  /** The objective coefficient of each q: minus the penalty. */
  function QCoefficient(networkSize: real, nRequests: nat, nBuses: nat): real
  {
    -(Penalty(networkSize, nRequests, nBuses) as real)
  }

  /** The penalty is non-negative for a non-negative network size, and 0 without requests or buses. */
  lemma PenaltyNonNegative(networkSize: real, nRequests: nat, nBuses: nat)
    requires 0.0 <= networkSize
    ensures 0 <= Penalty(networkSize, nRequests, nBuses)
    ensures nRequests == 0 || nBuses == 0 ==> Penalty(networkSize, nRequests, nBuses) == 0
    ensures QCoefficient(networkSize, nRequests, nBuses) <= 0.0
  {
    var t := Trunc(4.0 * networkSize);
    assert 0 <= t;
    assert 0 <= t * nRequests;
    assert 0 <= t * nRequests * nBuses;
  }

  /** The cost terms of the arcs out of e: each arc weighted by the distance between its endpoints. */
  function ArcCostsOf(e: Event, dsts: seq<Event>, dist: (Stop, Stop) -> real): (ts: seq<Term>)
    ensures |ts| == |dsts| && forall k :: 0 <= k < |dsts| ==> ts[k] == Term(X(e, dsts[k]), dist(Location(e), Location(dsts[k])))
  {
    seq(|dsts|, k requires 0 <= k < |dsts| => Term(X(e, dsts[k]), dist(Location(e), Location(dsts[k]))))
  }

  /** The cost terms of the arcs of some events. */
  function ArcCosts(g: Graph, events: seq<Event>, dist: (Stop, Stop) -> real): seq<Term>
  {
    if events == [] then []
    else
      var e := events[|events| - 1];
      ArcCosts(g, events[..|events| - 1], dist) + ArcCostsOf(e, Outbound(g, e), dist)
  }

  /** The objective: a common coefficient (minus the penalty) on each q, then each arc's distance on its x. */
  function Objective(g: Graph, requests: seq<Request>, qCoeff: real, dist: (Stop, Stop) -> real): seq<Term>
  {
    Terms(QVars(requests), qCoeff) + ArcCosts(g, g.eventOrder, dist)
  }

  /** The cost terms are over exactly the arc variables, in the same order, each weighted by its distance. */
  lemma {:induction false} ArcCostsMatchArcs(g: Graph, events: seq<Event>, dist: (Stop, Stop) -> real)
    ensures |ArcCosts(g, events, dist)| == |AllArcs(g, events)|
    ensures forall i :: 0 <= i < |AllArcs(g, events)| ==>
              AllArcs(g, events)[i].X? &&
              ArcCosts(g, events, dist)[i] ==
                Term(AllArcs(g, events)[i], dist(Location(AllArcs(g, events)[i].from), Location(AllArcs(g, events)[i].to)))
    decreases |events|
  {
    if events != [] {
      var init := events[..|events| - 1];
      var e := events[|events| - 1];
      ArcCostsMatchArcs(g, init, dist);
      var a0: seq<Var>, c0: seq<Term> := AllArcs(g, init), ArcCosts(g, init, dist);
      var a1: seq<Var>, c1: seq<Term> := ArcsOutOf(e, Outbound(g, e)), ArcCostsOf(e, Outbound(g, e), dist);
      assert AllArcs(g, events) == a0 + a1;
      assert ArcCosts(g, events, dist) == c0 + c1;
      forall i: int | 0 <= i < |a0 + a1|
        ensures (a0 + a1)[i].X? && (c0 + c1)[i] == Term((a0 + a1)[i], dist(Location((a0 + a1)[i].from), Location((a0 + a1)[i].to)))
      {
        if i >= |a0| {
          assert (a0 + a1)[i] == a1[i - |a0|] && (c0 + c1)[i] == c1[i - |a0|];
        } else {
          assert (a0 + a1)[i] == a0[i] && (c0 + c1)[i] == c0[i];
        }
      }
    }
  }

  /** The objective value is the q coefficient times the accepted requests plus the travelled distance. */
  lemma {:induction false} ObjectiveValue(g: Graph, requests: seq<Request>, qCoeff: real, dist: (Stop, Stop) -> real, val: Var -> real)
    ensures Lhs(Objective(g, requests, qCoeff, dist), val) ==
              qCoeff * SumOf(QVars(requests), val) + Lhs(ArcCosts(g, g.eventOrder, dist), val)
  {
    ScaledThen(QVars(requests), qCoeff, ArcCosts(g, g.eventOrder, dist), val);
  }

  /** A common coefficient on some variables followed by other terms. */
  lemma {:induction false} ScaledThen(vs: seq<Var>, c: real, ts: seq<Term>, val: Var -> real)
    ensures Lhs(Terms(vs, c) + ts, val) == c * SumOf(vs, val) + Lhs(ts, val)
  {
    LhsAppend(Terms(vs, c), ts, val);
    LhsTerms(vs, c, val);
  }

  /** The objective loops: the q terms, then one cost term per arc. */
  method BuildObjective(g: Graph, requests: seq<Request>, buses: seq<Bus>, networkSize: real, dist: (Stop, Stop) -> real)
    returns (obj: seq<Term>)
    ensures obj == Objective(g, requests, QCoefficient(networkSize, |requests|, |buses|), dist)
  {
    var penalty := Trunc(4.0 * networkSize) * |requests| * |buses| * |buses|;
    var costs := [];
    var events := g.eventOrder;
    for i := 0 to |events|
      invariant costs == ArcCosts(g, events[..i], dist)
    {
      assert events[..i + 1][..i] == events[..i];
      var more := AddArcCostsOf(events[i], Outbound(g, events[i]), dist);
      costs := costs + more;
    }
    assert events[..|events|] == events;
    obj := Terms(QVars(requests), -penalty as real) + costs;
  }

  /** The inner objective loop over the arcs out of one event. */
  method AddArcCostsOf(e: Event, dsts: seq<Event>, dist: (Stop, Stop) -> real) returns (ts: seq<Term>)
    ensures ts == ArcCostsOf(e, dsts, dist)
  {
    ts := [];
    for k := 0 to |dsts|
      invariant |ts| == k && forall j :: 0 <= j < k ==> ts[j] == Term(X(e, dsts[j]), dist(Location(e), Location(dsts[j])))
    {
      ts := ts + [Term(X(e, dsts[k]), dist(Location(e), Location(dsts[k])))];
    }
  }

  // ----- the whole model -----

  /** The flow rows of some events. */
  function FlowRows(g: Graph, events: seq<Event>): (rows: seq<Row>)
    requires forall e :: e in events ==> e in g.edgeDict
    ensures |rows| == |events| && forall k :: 0 <= k < |events| ==> rows[k] == FlowRow(g, events[k])
  {
    seq(|events|, k requires 0 <= k < |events| => FlowRow(g, events[k]))
  }

  /** The fleet rows of some lines. */
  function FleetRows(g: Graph, buses: seq<Bus>, lines: seq<Line>): (rows: seq<Row>)
    requires IdleKnown(g, lines)
    ensures |rows| == |lines| && forall k :: 0 <= k < |lines| ==> rows[k] == FleetRow(g, buses, lines[k])
  {
    seq(|lines|, k requires 0 <= k < |lines| => FleetRow(g, buses, lines[k]))
  }

  /** The variables, the objective and the rows of the model. */
  datatype Model = Model(vars: seq<VarDecl>, objective: seq<Term>, rows: seq<Row>)

  /**
   * What build_model needs of its inputs: the key orders list the keys, every event and leg
   * it looks up is a key, every line of the fleet has an idle event whose neighbours are leg
   * events, and every option has a leg.
   */
  ghost predicate ModelReady(g: Graph, requests: seq<Request>, buses: seq<Bus>)
  {
    KeysListed(g) && Closed(g) && LegsKnown(g, requests) &&
    (forall b :: b in buses ==> DepotReady(g, b.line)) &&
    (forall r :: r in requests ==> OptionsHaveLegs(r))
  }

  /** Every line of the fleet is ready for its depot rows. */
  predicate LinesReady(g: Graph, lines: seq<Line>)
  {
    forall l :: l in lines ==> DepotReady(g, l)
  }

  /** The rows of the model, family by family in the order build_model adds them. */
  function ModelRows(enc: Encoding, g: Graph, requests: seq<Request>, buses: seq<Bus>, lines: seq<Line>,
                     dur: (Stop, Stop) -> real, transfer: real): seq<Row>
    requires ModelReady(g, requests, buses) && LinesReady(g, lines)
  {
    FlowRows(g, g.eventOrder) + OptionRows(g, requests) + FleetRows(g, buses, lines) +
    DepotRows(enc, g, dur, transfer, lines) + SeqRowsOfLegs(enc, g, dur, transfer, g.legOrder) +
    AllRequestRows(enc, requests)
  }

  /**
   * build_model: the variables, the objective and every constraint family. The set of the
   * fleet's lines is iterated in one order, used for both the fleet and the depot rows.
   */
  method BuildModel(enc: Encoding, g: Graph, requests: seq<Request>, buses: seq<Bus>,
                    dur: (Stop, Stop) -> real, dist: (Stop, Stop) -> real, networkSize: real, transfer: real)
    returns (m: Model, lines: seq<Line>)
    requires ModelReady(g, requests, buses)
    ensures (set l | l in lines) == LinesOf(buses) && Distinct(lines)
    ensures LinesReady(g, lines)
    ensures m.vars == Variables(enc, g, requests)
    ensures m.objective == Objective(g, requests, QCoefficient(networkSize, |requests|, |buses|), dist)
    ensures m.rows == ModelRows(enc, g, requests, buses, lines, dur, transfer)
  {
    var vars := DeclareVariables(enc, g, requests);
    lines := IterationOrder(LinesOf(buses));
    forall l | l in lines
      ensures DepotReady(g, l)
    {
      assert l in LinesOf(buses);
    }
    var obj := BuildObjective(g, requests, buses, networkSize, dist);
    var rows := BuildRows(enc, g, requests, buses, lines, dur, transfer);
    m := Model(vars, obj, rows);
  }

  /** The constraint part of build_model, family by family. */
  method BuildRows(enc: Encoding, g: Graph, requests: seq<Request>, buses: seq<Bus>, lines: seq<Line>,
                   dur: (Stop, Stop) -> real, transfer: real) returns (rows: seq<Row>)
    requires ModelReady(g, requests, buses) && LinesReady(g, lines)
    ensures rows == ModelRows(enc, g, requests, buses, lines, dur, transfer)
  {
    var flow := AddFlowRows(g);
    var cover := AddOptionRows(g, requests);
    var fleet := AddFleetRows(g, buses, lines);
    var depot := AddDepotRows(enc, g, dur, transfer, lines);
    var sequencing := AddSequencingRows(enc, g, dur, transfer);
    var perRequest := AddAllRequestRows(enc, requests);
    assert flow == FlowRows(g, g.eventOrder);
    assert fleet == FleetRows(g, buses, lines);
    rows := flow + cover + fleet + depot + sequencing + perRequest;
  }

  /** Every row of a list holds under a solution. */
  predicate Satisfies(rows: seq<Row>, val: Var -> real)
  {
    forall r :: r in rows ==> Holds(r, val)
  }

  /** Under a solution of the model, as much flow enters every event as leaves it. */
  lemma {:induction false} SolutionConservesFlow(enc: Encoding, g: Graph, requests: seq<Request>, buses: seq<Bus>, lines: seq<Line>,
                              dur: (Stop, Stop) -> real, transfer: real, val: Var -> real, e: Event)
    requires ModelReady(g, requests, buses) && LinesReady(g, lines)
    requires Satisfies(ModelRows(enc, g, requests, buses, lines, dur, transfer), val)
    requires e in g.edgeDict
    ensures SumOf(ArcsInto(g.edgeDict[e].inbound, e), val) == SumOf(ArcsOutOf(e, g.edgeDict[e].outbound), val)
  {
    assert e in g.eventOrder;
    var k :| 0 <= k < |g.eventOrder| && g.eventOrder[k] == e;
    assert FlowRows(g, g.eventOrder)[k] == FlowRow(g, e);
    assert FlowRow(g, e) in ModelRows(enc, g, requests, buses, lines, dur, transfer);
    FlowRowMeaning(g, e, val);
  }

  /** Under a solution of the model, no more tours leave a line's depot than the line has buses. */
  lemma {:induction false} SolutionRespectsFleet(enc: Encoding, g: Graph, requests: seq<Request>, buses: seq<Bus>, lines: seq<Line>,
                              dur: (Stop, Stop) -> real, transfer: real, val: Var -> real, l: Line)
    requires ModelReady(g, requests, buses) && LinesReady(g, lines)
    requires Satisfies(ModelRows(enc, g, requests, buses, lines, dur, transfer), val)
    requires l in lines
    ensures SumOf(ArcsOutOf(IdleEvent(l), g.edgeDict[IdleEvent(l)].outbound), val) <= BusCount(buses, l) as real
  {
    var k :| 0 <= k < |lines| && lines[k] == l;
    assert FleetRows(g, buses, lines)[k] == FleetRow(g, buses, l);
    assert FleetRow(g, buses, l) in ModelRows(enc, g, requests, buses, lines, dur, transfer);
    FleetRowMeaning(g, buses, l, val);
  }

  /** Under a solution of the model, each leg of an option is reached at least as often as the option is chosen. */
  lemma {:induction false} SolutionCoversOptions(enc: Encoding, g: Graph, requests: seq<Request>, buses: seq<Bus>, lines: seq<Line>,
                              dur: (Stop, Stop) -> real, transfer: real, val: Var -> real,
                              r: Request, o: RouteOption, leg: Leg)
    requires ModelReady(g, requests, buses) && LinesReady(g, lines)
    requires Satisfies(ModelRows(enc, g, requests, buses, lines, dur, transfer), val)
    requires r in requests && o in r.options && leg in o.legs
    ensures SumOf(ArcsIntoAll(g, g.requestDict[leg].pickUps), val) >= val(Z(r.id, o.key))
  {
    OptionRowsCover(g, requests, r, o, leg);
    assert OptionRow(g, r, o, leg) in ModelRows(enc, g, requests, buses, lines, dur, transfer);
    OptionRowMeaning(g, r, o, leg, val);
  }

  /** The rows of a request are rows of the requests it is among. */
  lemma {:induction false} RequestRowsIn(enc: Encoding, requests: seq<Request>, r: Request, row: Row)
    requires forall r :: r in requests ==> OptionsHaveLegs(r)
    requires r in requests && row in RequestRows(enc, r)
    ensures row in AllRequestRows(enc, requests)
    decreases |requests|
  {
    var init := requests[..|requests| - 1];
    if r != requests[|requests| - 1] {
      assert r in init;
      RequestRowsIn(enc, init, r, row);
    }
  }

  /** Under a solution of the model, the chosen options of a request add up to its acceptance. */
  lemma SolutionChoosesOptions(enc: Encoding, g: Graph, requests: seq<Request>, buses: seq<Bus>, lines: seq<Line>,
                               dur: (Stop, Stop) -> real, transfer: real, val: Var -> real, r: Request)
    requires ModelReady(g, requests, buses) && LinesReady(g, lines)
    requires Satisfies(ModelRows(enc, g, requests, buses, lines, dur, transfer), val)
    requires r in requests
    ensures SumOf(ZVars(r, r.options), val) == val(Q(r.id))
  {
    RequestRowsIn(enc, requests, r, ZRow(r));
    assert ZRow(r) in ModelRows(enc, g, requests, buses, lines, dur, transfer);
    ZRowMeaning(r, val);
  }

  /** Under a solution of the model, every option's ride from its first leg's start to its last leg's arrival is within the longest ride. */
  lemma SolutionBoundsRides(enc: Encoding, g: Graph, requests: seq<Request>, buses: seq<Bus>, lines: seq<Line>,
                            dur: (Stop, Stop) -> real, transfer: real, val: Var -> real, r: Request, o: RouteOption)
    requires ModelReady(g, requests, buses) && LinesReady(g, lines)
    requires Satisfies(ModelRows(enc, g, requests, buses, lines, dur, transfer), val)
    requires r in requests && o in r.options
    ensures RideWithin(enc, r, o.legs[0], o.legs[|o.legs| - 1], val)
  {
    var p := Ends(o);
    assert p in EndsOf(r.options);
    RideRowsPresent(enc, r, r.options, p);
    RequestRowsIn(enc, requests, r, RideRow(enc, r, p.0, p.1));
    assert RideRow(enc, r, p.0, p.1) in ModelRows(enc, g, requests, buses, lines, dur, transfer);
    assert Holds(RideRow(enc, r, o.legs[0], o.legs[|o.legs| - 1]), val);
    RideRowMeaning(enc, r, o.legs[0], o.legs[|o.legs| - 1], val);
  }

  /** Under a solution of the model, each leg of an option starts, in clock time, no earlier than the previous leg arrives. */
  lemma SolutionChainsLegs(enc: Encoding, g: Graph, requests: seq<Request>, buses: seq<Bus>, lines: seq<Line>,
                           dur: (Stop, Stop) -> real, transfer: real, val: Var -> real, r: Request, o: RouteOption, i: nat)
    requires ModelReady(g, requests, buses) && LinesReady(g, lines)
    requires Satisfies(ModelRows(enc, g, requests, buses, lines, dur, transfer), val)
    requires r in requests && o in r.options && i + 1 < |o.legs|
    ensures val(BStart(o.legs[i + 1].splitId)) + AddValue(enc, o.legs[i + 1], true) >=
              val(BArr(o.legs[i].splitId)) + AddValue(enc, o.legs[i], false)
  {
    ChainRowsPresent(enc, r, r.options, o, i);
    RequestRowsIn(enc, requests, r, ChainRow(enc, o.legs[i], o.legs[i + 1]));
    assert ChainRow(enc, o.legs[i], o.legs[i + 1]) in ModelRows(enc, g, requests, buses, lines, dur, transfer);
    ChainRowMeaning(enc, o.legs[i], o.legs[i + 1], val);
  }

  /** With unique keys, the arcs collected for a group's key are that group's arcs. */
  lemma {:induction false} ArcsForAt<K>(d: seq<Group<K>>, i: nat)
    requires UniqueKeys(d) && i < |d|
    ensures ArcsFor(d, d[i].key) == d[i].arcs
  {
    if i > 0 {
      assert d[0].key != d[i].key;
      assert d[1..][i - 1] == d[i];
      ArcsForAt(d[1..], i - 1);
    }
  }

  /** The depot rows of a listed line are among the depot rows of the lines. */
  lemma {:induction false} DepotRowsIn(enc: Encoding, g: Graph, dur: (Stop, Stop) -> real, transfer: real,
                                       lines: seq<Line>, line: Line, row: Row)
    requires LinesReady(g, lines) && line in lines && row in DepotRowsOfLine(enc, g, dur, transfer, line)
    ensures row in DepotRows(enc, g, dur, transfer, lines)
    decreases |lines|
  {
    var init := lines[..|lines| - 1];
    if line != lines[|lines| - 1] {
      assert line in init;
      DepotRowsIn(enc, g, dur, transfer, init, line, row);
    }
  }

  /**
   * Under a solution of the model, a leg that leaves a line's idle event starts, in clock time,
   * no earlier than the line's start plus the transfer minutes plus the travel from the depot
   * times the value of its arcs out of idle; a leg that comes home arrives early enough for the
   * travel to the depot, times the value of its arcs into idle, to end by the line's end.
   */
  lemma SolutionRespectsDepots(enc: Encoding, g: Graph, requests: seq<Request>, buses: seq<Bus>, lines: seq<Line>,
                               dur: (Stop, Stop) -> real, transfer: real, val: Var -> real, line: Line, l: Leg)
    requires ModelReady(g, requests, buses) && LinesReady(g, lines)
    requires Satisfies(ModelRows(enc, g, requests, buses, lines, dur, transfer), val)
    requires line in lines
    ensures DepotReady(g, line)
    ensures var idle := IdleEvent(line);
            (exists f :: f in g.edgeDict[idle].outbound && f.first == l) ==>
              StartsAfterDepot(enc, dur, transfer, line, l, Matching(OutboundPairs(idle, g.edgeDict[idle].outbound), l), val)
    ensures var idle := IdleEvent(line);
            (exists f :: f in g.edgeDict[idle].inbound && f.first == l) ==>
              ArrivesBeforeClose(enc, dur, line, l, Matching(InboundPairs(g.edgeDict[idle].inbound, idle), l), val)
  {
    var idle := IdleEvent(line);
    assert DepotReady(g, line);
    if exists f :: f in g.edgeDict[idle].outbound && f.first == l {
      var arcs := Matching(OutboundPairs(idle, g.edgeDict[idle].outbound), l);
      var row := StartRow(enc, dur, transfer, line, Group(l, arcs));
      DepotStartRowIn(enc, g, dur, transfer, line, l);
      DepotRowsIn(enc, g, dur, transfer, lines, line, row);
      assert row in ModelRows(enc, g, requests, buses, lines, dur, transfer);
      StartRowGives(enc, dur, transfer, line, l, arcs, val);
    }
    if exists f :: f in g.edgeDict[idle].inbound && f.first == l {
      var arcs := Matching(InboundPairs(g.edgeDict[idle].inbound, idle), l);
      var row := ArrivalRow(enc, dur, line, Group(l, arcs));
      DepotArrivalRowIn(enc, g, dur, transfer, line, l);
      DepotRowsIn(enc, g, dur, transfer, lines, line, row);
      assert row in ModelRows(enc, g, requests, buses, lines, dur, transfer);
      ArrivalRowGives(enc, dur, line, l, arcs, val);
    }
  }

  /**
   * A leg gated by `arcs` out of a line's idle event starts, in clock time, no earlier than the line's
   * start plus the transfer time plus, when one of the arcs is used, the drive from the depot.
   */
  predicate StartsAfterDepot(enc: Encoding, dur: (Stop, Stop) -> real, transfer: real, line: Line, l: Leg,
                             arcs: seq<Var>, val: Var -> real)
  {
    val(BStart(l.splitId)) + AddValue(enc, l, true) >=
      GetInMinutes(line.startTime) + transfer + dur(Location(IdleEvent(line)), l.pickUp) * SumOf(arcs, val)
  }

  /**
   * A leg gated by `arcs` into a line's idle event arrives, in clock time, early enough that, when one of
   * the arcs is used, the drive back to the depot ends by the line's end.
   */
  predicate ArrivesBeforeClose(enc: Encoding, dur: (Stop, Stop) -> real, line: Line, l: Leg, arcs: seq<Var>,
                               val: Var -> real)
  {
    val(BArr(l.splitId)) + AddValue(enc, l, false) + dur(l.dropOff, Location(IdleEvent(line))) * SumOf(arcs, val)
      <= GetInMinutes(line.endTime)
  }

  /** A start row that holds bounds the leg's start from below. */
  lemma StartRowGives(enc: Encoding, dur: (Stop, Stop) -> real, transfer: real, line: Line, l: Leg, arcs: seq<Var>,
                      val: Var -> real)
    requires Holds(StartRow(enc, dur, transfer, line, Group(l, arcs)), val)
    ensures StartsAfterDepot(enc, dur, transfer, line, l, arcs, val)
  {
    StartRowMeaning(enc, dur, transfer, line, Group(l, arcs), val);
  }

  /** An arrival row that holds bounds the leg's arrival from above. */
  lemma ArrivalRowGives(enc: Encoding, dur: (Stop, Stop) -> real, line: Line, l: Leg, arcs: seq<Var>, val: Var -> real)
    requires Holds(ArrivalRow(enc, dur, line, Group(l, arcs)), val)
    ensures ArrivesBeforeClose(enc, dur, line, l, arcs, val)
  {
    ArrivalRowMeaning(enc, dur, line, Group(l, arcs), val);
  }

  /** The start row of a leg leaving a line's idle event is among the line's depot rows. */
  lemma DepotStartRowIn(enc: Encoding, g: Graph, dur: (Stop, Stop) -> real, transfer: real, line: Line, l: Leg)
    requires DepotReady(g, line)
    requires exists f :: f in g.edgeDict[IdleEvent(line)].outbound && f.first == l
    ensures StartRow(enc, dur, transfer, line,
                     Group(l, Matching(OutboundPairs(IdleEvent(line), g.edgeDict[IdleEvent(line)].outbound), l)))
              in DepotRowsOfLine(enc, g, dur, transfer, line)
  {
    var idle := IdleEvent(line);
    DepotGroupsExact(g, line, l);
    var outs := OutGroups(g, line);
    var k :| 0 <= k < |outs| && outs[k].key == l;
    ArcsForAt(outs, k);
    var grp := Group(l, Matching(OutboundPairs(idle, g.edgeDict[idle].outbound), l));
    assert outs[k] == grp;
    assert StartRow(enc, dur, transfer, line, grp) == StartRows(enc, dur, transfer, line, outs)[k];
  }

  /** The arrival row of a leg coming home to a line's idle event is among the line's depot rows. */
  lemma DepotArrivalRowIn(enc: Encoding, g: Graph, dur: (Stop, Stop) -> real, transfer: real, line: Line, l: Leg)
    requires DepotReady(g, line)
    requires exists f :: f in g.edgeDict[IdleEvent(line)].inbound && f.first == l
    ensures ArrivalRow(enc, dur, line,
                       Group(l, Matching(InboundPairs(g.edgeDict[IdleEvent(line)].inbound, IdleEvent(line)), l)))
              in DepotRowsOfLine(enc, g, dur, transfer, line)
  {
    var idle := IdleEvent(line);
    DepotGroupsExact(g, line, l);
    var ins := InGroups(g, line);
    var ips := InboundPairs(g.edgeDict[idle].inbound, idle);
    PutAllSpec([], ips);
    var f :| f in g.edgeDict[idle].inbound && f.first == l;
    var i :| 0 <= i < |g.edgeDict[idle].inbound| && g.edgeDict[idle].inbound[i] == f;
    assert ips[i] in ips && ips[i].0 == l;
    assert l in KeysOf(ins);
    var k :| 0 <= k < |ins| && ins[k].key == l;
    ArcsForAt(ins, k);
    var grp := Group(l, Matching(ips, l));
    assert ins[k] == grp;
    assert ArrivalRow(enc, dur, line, grp) == ArrivalRows(enc, dur, line, ins)[k];
  }

  /** The sequencing rows of a listed leg are among the rows of the listed legs. */
  lemma {:induction false} SeqRowsIn(enc: Encoding, g: Graph, dur: (Stop, Stop) -> real, transfer: real,
                                     legs: seq<Leg>, leg: Leg, row: Row)
    requires LegEventsKnown(g) && forall l :: l in legs ==> l in g.requestDict
    requires leg in legs && row in SeqRowsOfLeg(enc, g, dur, transfer, leg)
    ensures row in SeqRowsOfLegs(enc, g, dur, transfer, legs)
    decreases |legs|
  {
    var init := legs[..|legs| - 1];
    if leg != legs[|legs| - 1] {
      assert leg in init;
      SeqRowsIn(enc, g, dur, transfer, init, leg, row);
    }
  }

  /**
   * Under a solution of the model, for every side of every leg and every successor side in
   * its var_dict, the sequencing inequality holds for the sum of the gating arcs.
   */
  lemma SolutionSequences(enc: Encoding, g: Graph, requests: seq<Request>, buses: seq<Bus>, lines: seq<Line>,
                          dur: (Stop, Stop) -> real, transfer: real, val: Var -> real,
                          leg: Leg, start: bool, grp: Group<(Leg, bool)>)
    requires ModelReady(g, requests, buses) && LinesReady(g, lines)
    requires Satisfies(ModelRows(enc, g, requests, buses, lines, dur, transfer), val)
    requires leg in g.requestDict && grp in SideGroups(g, leg, start)
    ensures SequencingHolds(enc, leg, start, grp.key.0, grp.key.1, dur(SideStop(leg, start), SideStop(grp.key.0, grp.key.1)),
                            transfer, SumOf(grp.arcs, val), val(BVar(leg, start)), val(BVar(grp.key.0, grp.key.1)))
  {
    var groups := SideGroups(g, leg, start);
    var k :| 0 <= k < |groups| && groups[k] == grp;
    var row := SeqRow(enc, dur, transfer, leg, start, grp);
    if start {
      assert SeqRows(enc, dur, transfer, leg, true, groups)[k] == row;
    } else {
      assert SeqRows(enc, dur, transfer, leg, false, groups)[k] == row;
    }
    assert row in SeqRowsOfLeg(enc, g, dur, transfer, leg);
    assert leg in g.legOrder;
    SeqRowsIn(enc, g, dur, transfer, g.legOrder, leg, row);
    assert row in ModelRows(enc, g, requests, buses, lines, dur, transfer);
    SeqRowMeaning(enc, dur, transfer, leg, start, grp, val);
  }
}
