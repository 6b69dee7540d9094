/**
 The bounded walk over inventory presets. `Emit` is the unbounded preorder of nodes and item outcomes that a
 visit produces; the walker appends to shared lists and stops at a node limit.
 */
module InventoryPreset {
  import opened Wrappers

  type Interval = (real, real)

  /** The text of a numeric attribute, as a finite number or not. */
  datatype Raw = Number(value: real) | Garbage
  datatype RawLevel = Level(value: int) | BadLevel

  /** The attributes the walk reads. `mode` is case-folded; a level may come from either of its two spellings. */
  datatype Attributes = Attributes(
    name: string, weight: Option<Raw>, mode: Option<string>,
    amount: Option<Raw>, modeValue: Option<Raw>, variation: Option<Raw>, modeValueVariation: Option<Raw>,
    minLevel: Option<RawLevel>, maxLevel: Option<RawLevel>)

  datatype Child = Ref(attributes: Attributes) | Item(attributes: Attributes)

  type Bounds = (Option<int>, Option<int>)

  /** The effective presets by name, and the query. */
  datatype Query = Query(
    records: map<string, seq<Child>>, tableResolved: bool, maxDepth: nat, maxNodes: nat,
    combatLevel: Option<int>, plusOrMinus: bool)

  datatype Status = Resolved | Cycle | Missing | Unresolved

  // ----- attributes -----

  /** `_number`: negative values are refused. */
  function NumberOf(raw: Option<Raw>): Option<real> {
    match raw
    case Some(Number(x)) => if x < 0.0 then None else Some(x)
    case _ => None
  }

  function OrElse<T>(a: Option<T>, b: Option<T>): Option<T> { if a.Some? then a else b }

  /** `_quantity`. */
  function Quantity(a: Attributes, item: bool, plusOrMinus: bool): (q: Option<Interval>)
    ensures q.Some? ==> 0.0 <= q.value.0 <= q.value.1
  {
    var base := OrElse(a.amount, a.modeValue);
    var variation := OrElse(a.variation, a.modeValueVariation);
    if a.mode.Some? && a.mode.value != "amount" && a.mode.value != "exact" then None
    else if base.None? then if item then None else Some((1.0, 1.0))
    else match NumberOf(base)
      case None => None
      case Some(x) =>
        if variation.None? then Some((x, x))
        else match NumberOf(variation)
          case None => None
          case Some(d) => if !plusOrMinus then None else Some((if x - d < 0.0 then 0.0 else x - d, x + d))
  }

  const MAX_LEVEL := 0x7FFF_FFFF

  function LevelOf(raw: Option<RawLevel>): Option<int> {
    match raw
    case Some(Level(n)) => if 0 <= n <= MAX_LEVEL then Some(n) else None
    case _ => None
  }

  /** `_local_restriction`: the level bounds, and whether anything about them is invalid. */
  function LocalBounds(a: Attributes): (Bounds, bool) {
    var low, high := LevelOf(a.minLevel), LevelOf(a.maxLevel);
    ((low, high), (a.minLevel.Some? && low.None?) || (a.maxLevel.Some? && high.None?)
                  || (low.Some? && high.Some? && low.value > high.value))
  }

  function Larger(a: Option<int>, b: Option<int>): Option<int> {
    if a.None? then b else if b.None? then a else Some(if a.value > b.value then a.value else b.value)
  }

  function Smaller(a: Option<int>, b: Option<int>): Option<int> {
    if a.None? then b else if b.None? then a else Some(if a.value < b.value then a.value else b.value)
  }

  /** `_combine_restriction`. */
  function Combine(a: Bounds, b: Bounds): Bounds { (Larger(a.0, b.0), Smaller(a.1, b.1)) }

  datatype Restriction = Unknown | NotApplicable | NotEvaluated | Excluded | Eligible

  /** The state of `_restriction_payload`. */
  function RestrictionOf(b: Bounds, level: Option<int>, invalid: bool): Restriction {
    if invalid || (b.0.Some? && b.1.Some? && b.0.value > b.1.value) then Unknown
    else if b.0.None? && b.1.None? then NotApplicable
    else if level.None? then NotEvaluated
    else if (b.0.Some? && level.value < b.0.value) || (b.1.Some? && level.value > b.1.value) then Excluded
    else Eligible
  }

  // ----- selection weights -----

  function Total(children: seq<Child>): real {
    if children == [] then 0.0
    else (match NumberOf(children[0].attributes.weight) case Some(w) => w case None => 0.0) + Total(children[1..])
  }

  predicate Weighted(children: seq<Child>) {
    (forall i :: 0 <= i < |children| ==> NumberOf(children[i].attributes.weight).Some?) && Total(children) > 0.0
  }

  /** `_local_probabilities`, one child at a time. */
  function LocalProbability(children: seq<Child>, k: nat): Option<real>
    requires k < |children|
  {
    if Weighted(children) then Some(NumberOf(children[k].attributes.weight).value / Total(children)) else None
  }

  function Times(a: Option<real>, b: Option<real>): Option<real> {
    if a.Some? && b.Some? then Some(a.value * b.value) else None
  }

  function TimesInterval(a: Option<Interval>, b: Option<Interval>): Option<Interval> {
    if a.Some? && b.Some? then Some((a.value.0 * b.value.0, a.value.1 * b.value.1)) else None
  }

  // ----- visits and what they emit -----

  /** One call of `walk`. The trail is the names of the ancestors, root first. */
  datatype Visit = Visit(
    name: string, parent: Option<nat>, ordinal: nat, depth: nat, trail: seq<string>,
    probability: Option<real>, quantity: Option<Interval>, bounds: Bounds, invalid: bool)

  datatype Entry =
    | Node(visit: Visit, status: Status)
    | Outcome(source: nat, ordinal: nat, name: string, probability: Option<real>, quantity: Option<Interval>,
              restriction: Restriction)

  function StatusOf(q: Query, v: Visit): Status {
    if v.name in v.trail then Cycle
    else if v.name !in q.records then if q.tableResolved then Missing else Unresolved
    else Resolved
  }

  /** Whether the visit goes on to its children. */
  predicate Expands(q: Query, v: Visit) { StatusOf(q, v) == Resolved && v.depth < q.maxDepth }

  function Children(q: Query, v: Visit): seq<Child>
    requires Expands(q, v)
  {
    q.records[v.name]
  }

  function BranchProbability(q: Query, v: Visit, k: nat): Option<real>
    requires Expands(q, v) && k < |Children(q, v)|
  {
    Times(v.probability, LocalProbability(Children(q, v), k))
  }

  function BranchBounds(q: Query, v: Visit, k: nat): Bounds
    requires Expands(q, v) && k < |Children(q, v)|
  {
    Combine(v.bounds, LocalBounds(Children(q, v)[k].attributes).0)
  }

  predicate BranchInvalid(q: Query, v: Visit, k: nat)
    requires Expands(q, v) && k < |Children(q, v)|
  {
    v.invalid || LocalBounds(Children(q, v)[k].attributes).1
  }

  function BranchQuantity(q: Query, v: Visit, k: nat): Option<Interval>
    requires Expands(q, v) && k < |Children(q, v)|
  {
    TimesInterval(v.quantity, Quantity(Children(q, v)[k].attributes, Children(q, v)[k].Item?, q.plusOrMinus))
  }

  /** The visit of the preset that child `k` refers to, from the node with index `self`. */
  function ChildVisit(q: Query, v: Visit, self: nat, k: nat): Visit
    requires Expands(q, v) && k < |Children(q, v)|
  {
    Visit(Children(q, v)[k].attributes.name, Some(self), k, v.depth + 1, v.trail + [v.name],
          BranchProbability(q, v, k), BranchQuantity(q, v, k), BranchBounds(q, v, k), BranchInvalid(q, v, k))
  }

  /** The outcome of item child `k`. An excluded item has probability zero, even where the weights are unknown. */
  function ChildOutcome(q: Query, v: Visit, self: nat, k: nat): Entry
    requires Expands(q, v) && k < |Children(q, v)|
  {
    var restriction := RestrictionOf(BranchBounds(q, v, k), q.combatLevel, BranchInvalid(q, v, k));
    Outcome(self, k, Children(q, v)[k].attributes.name,
            if restriction == Excluded then Some(0.0) else BranchProbability(q, v, k), BranchQuantity(q, v, k), restriction)
  }

  function NodeCount(es: seq<Entry>): nat { |NodesOf(es)| }

  function NodesOf(es: seq<Entry>): seq<Entry> {
    if es == [] then [] else NodesOf(es[..|es| - 1]) + (if es[|es| - 1].Node? then [es[|es| - 1]] else [])
  }

  /** Everything a visit emits, in order, when `base` nodes come before it. */
  function Emit(q: Query, v: Visit, base: nat): (es: seq<Entry>)
    requires v.depth <= q.maxDepth
    ensures es != []
    decreases q.maxDepth - v.depth, 1, 0
  {
    [Node(v, StatusOf(q, v))] + if Expands(q, v) then EmitChildren(q, v, base, 0, base + 1) else []
  }

  /** What the children from `k` on emit; `self` is the node's own index, `base` the nodes before them. */
  function EmitChildren(q: Query, v: Visit, self: nat, k: nat, base: nat): seq<Entry>
    requires Expands(q, v) && k <= |Children(q, v)|
    decreases q.maxDepth - v.depth, 0, |Children(q, v)| - k
  {
    if k == |Children(q, v)| then []
    else
      var here := EmitChild(q, v, self, k, base);
      here + EmitChildren(q, v, self, k + 1, base + NodeCount(here))
  }

  function EmitChild(q: Query, v: Visit, self: nat, k: nat, base: nat): seq<Entry>
    requires Expands(q, v) && k < |Children(q, v)|
    decreases q.maxDepth - v.depth, 0, 0
  {
    var child := Children(q, v)[k];
    if child.attributes.name == "" then []
    else if child.Ref? then Emit(q, ChildVisit(q, v, self, k), base)
    else [ChildOutcome(q, v, self, k)]
  }

  // ----- the walker -----

  datatype EdgeEnd = ToNode(index: nat) | ToOutcome(index: nat)
  datatype Edge = Edge(source: nat, target: EdgeEnd, ordinal: nat)

  function OutcomesOf(es: seq<Entry>): seq<Entry> {
    if es == [] then [] else OutcomesOf(es[..|es| - 1]) + (if es[|es| - 1].Outcome? then [es[|es| - 1]] else [])
  }

  /** One edge for each outcome, and for each node with a parent. */
  function EdgesOf(es: seq<Entry>): seq<Edge> {
    if es == [] then []
    else
      var front, last := es[..|es| - 1], es[|es| - 1];
      EdgesOf(front) + EdgesFor(last, NodeCount(front), |OutcomesOf(front)|)
  }

  /** The edge to an entry, when so many nodes and outcomes come before it. */
  function EdgesFor(e: Entry, nodes: nat, outcomes: nat): seq<Edge> {
    match e
    case Node(v, _) => (match v.parent case Some(p) => [Edge(p, ToNode(nodes), v.ordinal)] case None => [])
    case Outcome(source, ordinal, _, _, _, _) => [Edge(source, ToOutcome(outcomes), ordinal)]
  }

  /** As much of `es` as the limit leaves room for. */
  function Fill(log: seq<Entry>, es: seq<Entry>, limit: nat): seq<Entry> {
    if |log| + |es| <= limit then log + es else if |log| <= limit then log + es[..limit - |log|] else log
  }

  predicate DepthCut(q: Query, e: Entry) { e.Node? && e.status == Resolved && e.visit.depth >= q.maxDepth }

  predicate AnyCut(q: Query, es: seq<Entry>) { exists i :: 0 <= i < |es| && DepthCut(q, es[i]) }

  /** Whether appending `es` meets a limit: no room for all of it, or a node at the depth limit among what is appended. */
  predicate MeetsLimit(q: Query, log: seq<Entry>, es: seq<Entry>)
    requires |log| <= q.maxNodes
  {
    |log| + |es| > q.maxNodes || AnyCut(q, Fill(log, es, q.maxNodes)[|log|..])
  }

  lemma EdgesForEntry(e: Entry, nodes: nat, outcomes: nat)
    ensures e.Outcome? ==> EdgesFor(e, nodes, outcomes) == [Edge(e.source, ToOutcome(outcomes), e.ordinal)]
    ensures e.Node? && e.visit.parent.None? ==> EdgesFor(e, nodes, outcomes) == []
    ensures e.Node? && e.visit.parent.Some? ==>
      EdgesFor(e, nodes, outcomes) == [Edge(e.visit.parent.value, ToNode(nodes), e.visit.ordinal)]
  {
  }

  lemma AppendEntry(log: seq<Entry>, e: Entry)
    ensures NodesOf(log + [e]) == NodesOf(log) + if e.Node? then [e] else []
    ensures OutcomesOf(log + [e]) == OutcomesOf(log) + if e.Outcome? then [e] else []
    ensures EdgesOf(log + [e]) == EdgesOf(log) + EdgesFor(e, NodeCount(log), |OutcomesOf(log)|)
  {
    assert (log + [e])[..|log|] == log;
  }

  lemma {:induction false} NodesConcat(a: seq<Entry>, b: seq<Entry>)
    ensures NodesOf(a + b) == NodesOf(a) + NodesOf(b)
    decreases |b|
  {
    if b == [] {
      assert a + b == a;
    } else {
      var front, last := b[..|b| - 1], b[|b| - 1];
      assert a + b == (a + front) + [last] && b == front + [last];
      NodesConcat(a, front);
      AppendEntry(a + front, last);
      AppendEntry(front, last);
    }
  }

  /** Appending in two steps is appending at once; past the limit it no longer matters what comes second. */
  lemma FillInSteps(q: Query, log: seq<Entry>, here: seq<Entry>, rest: seq<Entry>, rest': seq<Entry>)
    requires |log| <= q.maxNodes && (|log| + |here| <= q.maxNodes ==> rest == rest')
    ensures |Fill(log, here, q.maxNodes)| <= q.maxNodes
    ensures Fill(Fill(log, here, q.maxNodes), rest', q.maxNodes) == Fill(log, here + rest, q.maxNodes)
    ensures MeetsLimit(q, log, here + rest) <==>
      MeetsLimit(q, log, here) || MeetsLimit(q, Fill(log, here, q.maxNodes), rest')
  {
    hide DepthCut;
    var full := Fill(log, here + rest, q.maxNodes);
    if |log| + |here| <= q.maxNodes {
      assert Fill(log, here, q.maxNodes)[|log|..] == here;
      var tail := Fill(log + here, rest, q.maxNodes)[|log + here|..];
      assert full == log + here + tail;
      assert full[|log|..] == here + tail;
      CutConcat(q, here, tail);
    }
  }

  lemma NoRoom(q: Query, log: seq<Entry>, es: seq<Entry>)
    requires |log| == q.maxNodes && es != []
    ensures Fill(log, es, q.maxNodes) == log && MeetsLimit(q, log, es)
  {
  }

  lemma RoomForOne(q: Query, log: seq<Entry>, e: Entry)
    requires |log| < q.maxNodes
    ensures Fill(log, [e], q.maxNodes) == log + [e]
    ensures MeetsLimit(q, log, [e]) <==> DepthCut(q, e)
  {
    hide DepthCut;
    assert (log + [e])[|log|..] == [e];
    assert [e][0] == e;
  }

  lemma NothingToFill(q: Query, log: seq<Entry>)
    requires |log| <= q.maxNodes
    ensures Fill(log, [], q.maxNodes) == log && !MeetsLimit(q, log, [])
  {
    hide DepthCut;
    assert log[|log|..] == [];
  }

  lemma CutConcat(q: Query, a: seq<Entry>, b: seq<Entry>)
    ensures AnyCut(q, a + b) <==> AnyCut(q, a) || AnyCut(q, b)
  {
    hide DepthCut;
    if AnyCut(q, a) { var i :| 0 <= i < |a| && DepthCut(q, a[i]); assert (a + b)[i] == a[i]; }
    if AnyCut(q, b) { var i :| 0 <= i < |b| && DepthCut(q, b[i]); assert (a + b)[|a| + i] == b[i]; }
  }

  class Walker {
    const q: Query
    var nodes: seq<Entry>
    var edges: seq<Edge>
    var outcomes: seq<Entry>
    var limitsReached: bool
    /** Nodes and outcomes in the order they were appended. */
    ghost var log: seq<Entry>

    constructor (q: Query)
      requires q.maxNodes >= 1
      ensures this.q == q && Valid() && log == [] && !limitsReached
    {
      this.q, nodes, edges, outcomes, limitsReached, log := q, [], [], [], false, [];
    }

    ghost predicate Valid()
      reads this
    {
      && nodes == NodesOf(log) && outcomes == OutcomesOf(log) && edges == EdgesOf(log)
      && |nodes| + |outcomes| == |log| <= q.maxNodes
    }

    /** `capacity`. */
    method Capacity() returns (room: bool)
      requires Valid()
      modifies `limitsReached
      ensures room <==> |log| < q.maxNodes
      ensures limitsReached == (old(limitsReached) || !room)
    {
      room := |nodes| + |outcomes| < q.maxNodes;
      if !room { limitsReached := true; }
    }

    /** `capacity`, and then the entry and its edge. */
    method Offer(e: Entry) returns (room: bool)
      requires Valid()
      modifies this
      ensures Valid() && room == (|old(log)| < q.maxNodes) && log == if room then old(log) + [e] else old(log)
      ensures limitsReached == (old(limitsReached) || !room)
    {
      hide NodesOf, OutcomesOf, EdgesOf, EdgesFor;
      room := Capacity();
      if !room { return; }
      AppendEntry(log, e);
      EdgesForEntry(e, |nodes|, |outcomes|);
      ghost var added := EdgesFor(e, |nodes|, |outcomes|);
      match e {
        case Node(v, _) =>
          if v.parent.Some? {
            edges := edges + [Edge(v.parent.value, ToNode(|nodes|), v.ordinal)];
          } else {
            assert edges + added == edges;
          }
          nodes := nodes + [e];
          assert outcomes + [] == outcomes;
        case Outcome(source, ordinal, _, _, _, _) =>
          edges := edges + [Edge(source, ToOutcome(|outcomes|), ordinal)];
          outcomes := outcomes + [e];
          assert nodes + [] == nodes;
      }
      log := log + [e];
    }

    /** `walk`: it appends what the visit emits, as far as there is room, and notes whether a limit was met. */
    method Walk(v: Visit)
      requires Valid() && v.depth <= q.maxDepth
      modifies this
      ensures Valid() && log == Fill(old(log), Emit(q, v, NodeCount(old(log))), q.maxNodes)
      ensures limitsReached == (old(limitsReached) || MeetsLimit(q, old(log), Emit(q, v, NodeCount(old(log)))))
      decreases q.maxDepth - v.depth, 1
    {
      hide Fill, EmitChildren, StatusOf, AnyCut, MeetsLimit, NodesOf, OutcomesOf, EdgesOf;
      ghost var start, flagged := log, limitsReached;
      var self := |nodes|;
      var node := Node(v, StatusOf(q, v));
      ghost var rest := if Expands(q, v) then EmitChildren(q, v, self, 0, self + 1) else [];
      assert Emit(q, v, self) == [node] + rest;
      var room := Offer(node);
      if !room {
        NoRoom(q, start, [node] + rest);
        return;
      }
      RoomForOne(q, start, node);
      AppendEntry(start, node);
      FillInSteps(q, start, [node], rest, rest);
      if Expands(q, v) {
        WalkChildren(v, self);
      } else {
        NothingToFill(q, log);
        if node.status == Resolved { limitsReached := true; }
      }
    }

    /** The loop over the children of a node. */
    method WalkChildren(v: Visit, self: nat)
      requires Valid() && Expands(q, v)
      modifies this
      ensures Valid() && log == Fill(old(log), EmitChildren(q, v, self, 0, NodeCount(old(log))), q.maxNodes)
      ensures limitsReached ==
        (old(limitsReached) || MeetsLimit(q, old(log), EmitChildren(q, v, self, 0, NodeCount(old(log)))))
      decreases q.maxDepth - v.depth, 0
    {
      hide Fill, MeetsLimit, Emit, EmitChild, EmitChildren, NodesOf, OutcomesOf, EdgesOf;
      var n := |Children(q, v)|;
      var k := 0;
      ghost var start, flagged := log, limitsReached;
      ghost var all := EmitChildren(q, v, self, 0, NodeCount(start));
      while k < n
        invariant 0 <= k <= n && Valid()
        invariant Fill(log, EmitChildren(q, v, self, k, NodeCount(log)), q.maxNodes) == Fill(start, all, q.maxNodes)
        invariant (limitsReached || MeetsLimit(q, log, EmitChildren(q, v, self, k, NodeCount(log))))
          == (flagged || MeetsLimit(q, start, all))
        decreases n - k
      {
        ghost var before := log;
        WalkChild(v, self, k);
        ChildStep(q, v, self, k, before, log);
        k := k + 1;
      }
      NoChildren(q, v, self, NodeCount(log));
      NothingToFill(q, log);
    }

    /** One turn of that loop. */
    method WalkChild(v: Visit, self: nat, k: nat)
      requires Valid() && Expands(q, v) && k < |Children(q, v)|
      modifies this
      ensures Valid() && log == Fill(old(log), EmitChild(q, v, self, k, NodeCount(old(log))), q.maxNodes)
      ensures limitsReached == (old(limitsReached) || MeetsLimit(q, old(log), EmitChild(q, v, self, k, NodeCount(old(log)))))
      decreases q.maxDepth - v.depth, 0, 0
    {
      hide Fill, MeetsLimit, Emit, NodesOf, OutcomesOf, EdgesOf;
      var child := Children(q, v)[k];
      if child.attributes.name == "" {
        NothingToFill(q, log);
      } else if child.Ref? {
        Walk(ChildVisit(q, v, self, k));
      } else {
        ghost var start := log;
        var outcome := ChildOutcome(q, v, self, k);
        var room := Offer(outcome);
        if room { RoomForOne(q, start, outcome); } else { NoRoom(q, start, [outcome]); }
      }
    }
  }

  lemma NoChildren(q: Query, v: Visit, self: nat, base: nat)
    requires Expands(q, v)
    ensures EmitChildren(q, v, self, |Children(q, v)|, base) == []
  {
  }

  lemma ChildStep(q: Query, v: Visit, self: nat, k: nat, log: seq<Entry>, log': seq<Entry>)
    requires Expands(q, v) && k < |Children(q, v)| && |log| <= q.maxNodes
    requires log' == Fill(log, EmitChild(q, v, self, k, NodeCount(log)), q.maxNodes)
    ensures |log'| <= q.maxNodes
    ensures Fill(log', EmitChildren(q, v, self, k + 1, NodeCount(log')), q.maxNodes)
      == Fill(log, EmitChildren(q, v, self, k, NodeCount(log)), q.maxNodes)
    ensures MeetsLimit(q, log, EmitChildren(q, v, self, k, NodeCount(log))) <==>
      MeetsLimit(q, log, EmitChild(q, v, self, k, NodeCount(log)))
      || MeetsLimit(q, log', EmitChildren(q, v, self, k + 1, NodeCount(log')))
  {
    hide MeetsLimit, EmitChild, NodesOf;
    var here := EmitChild(q, v, self, k, NodeCount(log));
    var rest := EmitChildren(q, v, self, k + 1, NodeCount(log) + NodeCount(here));
    if |log| + |here| <= q.maxNodes { NodesConcat(log, here); }
    FillInSteps(q, log, here, rest, EmitChildren(q, v, self, k + 1, NodeCount(log')));
  }
}
