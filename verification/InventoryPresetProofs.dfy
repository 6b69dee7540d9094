/** What the preset walk guarantees for every record graph, cyclic or shared. */
module InventoryPresetProofs {
  import opened Wrappers
  import opened InventoryPreset

  /** The visit that `resolve_inventory_preset` starts with. */
  function Root(name: string): Visit { Visit(name, None, 0, 0, [], Some(1.0), Some((1.0, 1.0)), (None, None), false) }

  // ----- the shape of the output -----

  predicate ValidInterval(i: Option<Interval>) { i.Some? ==> 0.0 <= i.value.0 <= i.value.1 }

  /** A visit as the walk makes it: the trail holds no preset twice, and every known quantity is an interval. */
  predicate GoodVisit(q: Query, v: Visit) {
    && |v.trail| == v.depth <= q.maxDepth
    && (forall i, j :: 0 <= i < j < |v.trail| ==> v.trail[i] != v.trail[j])
    && ValidInterval(v.quantity)
  }

  /**
   How an entry hangs below the nodes before it: it is the `ordinal`-th child of an expanded parent, and carries
   the parent's probability, quantity and bounds combined with the child's own.
   */
  predicate Linked(q: Query, nodes: seq<Entry>, e: Entry) {
    match e
    case Node(v, status) =>
      && status == StatusOf(q, v) && GoodVisit(q, v)
      && (nodes == [] <==> v.parent.None?)
      && (v.parent.None? ==> v == Root(v.name))
      && (v.parent.Some? ==>
        var p := v.parent.value;
        && Below(q, nodes, p, v.ordinal) && Children(q, nodes[p].visit)[v.ordinal].Ref?
        && v == ChildVisit(q, nodes[p].visit, p, v.ordinal))
    case Outcome(source, ordinal, _, _, quantity, _) =>
      && Below(q, nodes, source, ordinal) && ValidInterval(quantity)
      && Children(q, nodes[source].visit)[ordinal].Item?
      && e == ChildOutcome(q, nodes[source].visit, source, ordinal)
  }

  predicate Below(q: Query, nodes: seq<Entry>, p: nat, k: nat) {
    && p < |nodes| && nodes[p].Node? && Expands(q, nodes[p].visit) && k < |Children(q, nodes[p].visit)|
    && Children(q, nodes[p].visit)[k].attributes.name != ""
  }

  /** Every entry is linked to the nodes before it. */
  predicate Tree(q: Query, log: seq<Entry>) {
    forall i :: 0 <= i < |log| ==> Linked(q, NodesOf(log[..i]), log[i])
  }

  lemma TreeAppend(q: Query, log: seq<Entry>, e: Entry)
    requires Tree(q, log) && Linked(q, NodesOf(log), e)
    ensures Tree(q, log + [e])
  {
    hide Linked, NodesOf;
    var longer := log + [e];
    forall i | 0 <= i < |longer| ensures Linked(q, NodesOf(longer[..i]), longer[i]) {
      assert longer[..i] == log[..i];
      assert log[..|log|] == log;
    }
  }

  lemma TreePrefix(q: Query, log: seq<Entry>, n: nat)
    requires Tree(q, log) && n <= |log|
    ensures Tree(q, log[..n])
  {
    hide Linked, NodesOf;
    forall i | 0 <= i < n ensures Linked(q, NodesOf(log[..n][..i]), log[..n][i]) {
      assert log[..n][..i] == log[..i];
    }
  }

  lemma ChildVisitIsGood(q: Query, v: Visit, self: nat, k: nat)
    requires GoodVisit(q, v) && Expands(q, v) && k < |Children(q, v)|
    ensures GoodVisit(q, ChildVisit(q, v, self, k)) && ValidInterval(BranchQuantity(q, v, k))
  {
    var child := Children(q, v)[k];
    var own := Quantity(child.attributes, child.Item?, q.plusOrMinus);
    if v.quantity.Some? && own.Some? {
      ProductOfIntervals(v.quantity.value, own.value);
    }
  }

  lemma ProductOfIntervals(a: Interval, b: Interval)
    requires 0.0 <= a.0 <= a.1 && 0.0 <= b.0 <= b.1
    ensures 0.0 <= a.0 * b.0 <= a.1 * b.1
  {
    assert a.0 * b.0 <= a.1 * b.0;
    assert a.1 * b.0 <= a.1 * b.1;
  }

  lemma EmitUnfolds(q: Query, v: Visit, base: nat)
    requires v.depth <= q.maxDepth
    ensures Emit(q, v, base) == [Node(v, StatusOf(q, v))] + if Expands(q, v) then EmitChildren(q, v, base, 0, base + 1) else []
  {
  }

  lemma ChildrenUnfold(q: Query, v: Visit, self: nat, k: nat, base: nat)
    requires Expands(q, v) && k <= |Children(q, v)|
    ensures k == |Children(q, v)| ==> EmitChildren(q, v, self, k, base) == []
    ensures k < |Children(q, v)| ==> (
      var here := EmitChild(q, v, self, k, base);
      EmitChildren(q, v, self, k, base) == here + EmitChildren(q, v, self, k + 1, base + NodeCount(here)))
  {
    hide NodesOf;
  }

  lemma LinkedNode(q: Query, nodes: seq<Entry>, v: Visit)
    requires Linked(q, nodes, Node(v, StatusOf(q, v)))
    ensures GoodVisit(q, v)
  {
  }

  /** What a visit emits hangs below the node it was called from. */
  lemma {:induction false} EmitIsTree(q: Query, v: Visit, log: seq<Entry>)
    requires Tree(q, log) && v.depth <= q.maxDepth && Linked(q, NodesOf(log), Node(v, StatusOf(q, v)))
    ensures Tree(q, log + Emit(q, v, NodeCount(log)))
    decreases q.maxDepth - v.depth, 1, 0
  {
    var node := Node(v, StatusOf(q, v));
    var self := NodeCount(log);
    LinkedNode(q, NodesOf(log), v);
    TreeAppend(q, log, node);
    NodeAppended(log, node);
    EmitUnfolds(q, v, self);
    hide *;
    if Expands(q, v) {
      var rest := EmitChildren(q, v, self, 0, self + 1);
      ChildrenAreTree(q, v, self, 0, log + [node]);
      assert (log + [node]) + rest == log + ([node] + rest);
    } else {
      assert log + ([node] + []) == log + [node];
    }
  }

  lemma NodeAppended(log: seq<Entry>, e: Entry)
    requires e.Node?
    ensures NodeCount(log + [e]) == NodeCount(log) + 1 && NodesOf(log + [e])[NodeCount(log)] == e
  {
    AppendEntry(log, e);
  }

  lemma {:induction false} ChildrenAreTree(q: Query, v: Visit, self: nat, k: nat, log: seq<Entry>)
    requires Tree(q, log) && Expands(q, v) && GoodVisit(q, v) && k <= |Children(q, v)|
    requires self < NodeCount(log) && NodesOf(log)[self] == Node(v, StatusOf(q, v))
    ensures Tree(q, log + EmitChildren(q, v, self, k, NodeCount(log)))
    decreases q.maxDepth - v.depth, 0, |Children(q, v)| - k
  {
    hide Linked, Tree, NodesOf, GoodVisit, StatusOf, EmitChild, EmitChildren;
    ChildrenUnfold(q, v, self, k, NodeCount(log));
    if k == |Children(q, v)| {
      assert log + [] == log;
    } else {
      var here := EmitChild(q, v, self, k, NodeCount(log));
      var rest := EmitChildren(q, v, self, k + 1, NodeCount(log) + NodeCount(here));
      assert (log + here) + rest == log + (here + rest);
      NodesConcat(log, here);
      ChildIsTree(q, v, self, k, log);
      ChildrenAreTree(q, v, self, k + 1, log + here);
    }
  }

  lemma {:induction false} ChildIsTree(q: Query, v: Visit, self: nat, k: nat, log: seq<Entry>)
    requires Tree(q, log) && Expands(q, v) && GoodVisit(q, v) && k < |Children(q, v)|
    requires self < NodeCount(log) && NodesOf(log)[self] == Node(v, StatusOf(q, v))
    ensures Tree(q, log + EmitChild(q, v, self, k, NodeCount(log)))
    decreases q.maxDepth - v.depth, 0, 0
  {
    hide Tree, NodesOf, Emit;
    var child := Children(q, v)[k];
    ChildVisitIsGood(q, v, self, k);
    if child.attributes.name == "" {
      assert log + [] == log;
    } else if child.Ref? {
      EmitIsTree(q, ChildVisit(q, v, self, k), log);
    } else {
      TreeAppend(q, log, ChildOutcome(q, v, self, k));
    }
  }

  // ----- what the tree says -----

  lemma TreeLast(q: Query, log: seq<Entry>)
    requires Tree(q, log) && log != []
    ensures Tree(q, log[..|log| - 1]) && Linked(q, NodesOf(log[..|log| - 1]), log[|log| - 1])
  {
    TreePrefix(q, log, |log| - 1);
  }

  /** Every entry but the root has exactly one edge, from a node before it. */
  lemma {:induction false} EdgeCount(q: Query, log: seq<Entry>)
    requires Tree(q, log) && log != []
    ensures |EdgesOf(log)| == |log| - 1 && log[0].Node? && NodesOf(log) != []
    decreases |log|
  {
    var front, last := log[..|log| - 1], log[|log| - 1];
    TreeLast(q, log);
    assert log == front + [last];
    AppendEntry(front, last);
    hide Tree;
    if front != [] { EdgeCount(q, front); } else { assert NodesOf(front) == []; }
  }

  /** Node `i` of a tree: an earlier node is its parent, unless it is the root. */
  lemma {:induction false} NodeLinked(q: Query, log: seq<Entry>, i: nat)
    requires Tree(q, log) && i < |NodesOf(log)|
    ensures NodesOf(log)[i].Node? && Linked(q, NodesOf(log)[..i], NodesOf(log)[i])
    decreases |log|
  {
    assert log != [];
    hide *;
    var front, last := log[..|log| - 1], log[|log| - 1];
    var nodes, before := NodesOf(log), NodesOf(front);
    TreeLast(q, log);
    LastEntry(log);
    if i < |before| {
      NodeLinked(q, front, i);
      assert nodes[..i] == before[..i] && nodes[i] == before[i];
    } else {
      assert nodes[..i] == before && nodes[i] == last;
    }
  }

  lemma LastEntry(log: seq<Entry>)
    requires log != []
    ensures var front, last := log[..|log| - 1], log[|log| - 1];
      NodesOf(log) == NodesOf(front) + if last.Node? then [last] else []
  {
  }

  /** The presets on the way from the root to node `i`, the node itself left out. */
  function RootPath(q: Query, log: seq<Entry>, i: nat): seq<string>
    requires Tree(q, log) && i < NodeCount(log)
    decreases i
  {
    NodeLinked(q, log, i);
    var v := NodesOf(log)[i].visit;
    if v.parent.None? then []
    else NodeLinked(q, log, v.parent.value); RootPath(q, log, v.parent.value) + [NodesOf(log)[v.parent.value].visit.name]
  }

  /**
   No preset is repeated on a path from the root, except that a node repeating one is a final cycle node; and a
   node's depth is the length of that path, never past the limit.
   */
  lemma {:induction false} PathsDoNotRepeat(q: Query, log: seq<Entry>, i: nat)
    requires Tree(q, log) && i < NodeCount(log)
    ensures var path, node := RootPath(q, log, i), NodesOf(log)[i];
      && node.Node? && node.visit.trail == path && node.visit.depth == |path| <= q.maxDepth
      && (forall j, k :: 0 <= j < k < |path| ==> path[j] != path[k])
      && (node.status == Cycle <==> node.visit.name in path)
    decreases i
  {
    NodeLinked(q, log, i);
    var v := NodesOf(log)[i].visit;
    if v.parent.Some? { PathsDoNotRepeat(q, log, v.parent.value); }
  }

  // ----- level restrictions along a path -----

  predicate Admits(b: Bounds, level: int) { (b.0.Some? ==> b.0.value <= level) && (b.1.Some? ==> level <= b.1.value) }

  /** Combined bounds admit exactly the levels that both admit. */
  lemma CombineAdmits(a: Bounds, b: Bounds, level: int)
    ensures Admits(Combine(a, b), level) <==> Admits(a, level) && Admits(b, level)
  {
  }

  /** Every reference on the way from the root to node `i` admits the level. */
  predicate PathAdmits(q: Query, log: seq<Entry>, i: nat, level: int)
    requires Tree(q, log) && i < NodeCount(log)
    decreases i
  {
    NodeLinked(q, log, i);
    var v := NodesOf(log)[i].visit;
    if v.parent.None? then true
    else
      NodeLinked(q, log, v.parent.value);
      PathAdmits(q, log, v.parent.value, level)
      && Admits(LocalBounds(Children(q, NodesOf(log)[v.parent.value].visit)[v.ordinal].attributes).0, level)
  }

  /** The bounds that a node carries are those of its whole path. */
  lemma {:induction false} BoundsAlongPath(q: Query, log: seq<Entry>, i: nat, level: int)
    requires Tree(q, log) && i < NodeCount(log)
    ensures NodesOf(log)[i].Node? && (Admits(NodesOf(log)[i].visit.bounds, level) <==> PathAdmits(q, log, i, level))
    decreases i
  {
    NodeLinked(q, log, i);
    var nodes := NodesOf(log);
    var v := nodes[i].visit;
    hide NodesOf, Tree, Combine, GoodVisit, Weighted, Admits, LocalBounds, StatusOf;
    if v.parent.Some? {
      NodeLinked(q, log, v.parent.value);
      BoundsAlongPath(q, log, v.parent.value, level);
      CombineAdmits(nodes[v.parent.value].visit.bounds,
                    LocalBounds(Children(q, nodes[v.parent.value].visit)[v.ordinal].attributes).0, level);
    } else {
      RootAdmits(v.name, level);
    }
  }

  lemma RootAdmits(name: string, level: int)
    ensures Admits(Root(name).bounds, level)
  {
  }

  /** An item is excluded exactly when its restriction is valid, the level is given, and some bound rules it out. */
  lemma ExcludedMeans(q: Query, v: Visit, self: nat, k: nat)
    requires Expands(q, v) && k < |Children(q, v)|
    ensures var local := LocalBounds(Children(q, v)[k].attributes).0;
      ChildOutcome(q, v, self, k).restriction == Excluded <==>
      && !BranchInvalid(q, v, k) && q.combatLevel.Some?
      && (exists level :: Admits(v.bounds, level) && Admits(local, level))
      && !(Admits(v.bounds, q.combatLevel.value) && Admits(local, q.combatLevel.value))
  {
    var local := LocalBounds(Children(q, v)[k].attributes).0;
    var both := BranchBounds(q, v, k);
    if exists level :: Admits(v.bounds, level) && Admits(local, level) {
      var level :| Admits(v.bounds, level) && Admits(local, level);
      CombineAdmits(v.bounds, local, level);
    }
    SomeLevel(both);
    if q.combatLevel.Some? { CombineAdmits(v.bounds, local, q.combatLevel.value); }
    if exists level :: Admits(both, level) {
      var level :| Admits(both, level);
      CombineAdmits(v.bounds, local, level);
    }
    hide LocalBounds, Combine;
  }

  /** Bounds admit some level unless they cross. */
  lemma SomeLevel(b: Bounds)
    ensures (exists level :: Admits(b, level)) <==> !(b.0.Some? && b.1.Some? && b.0.value > b.1.value)
  {
    if !(b.0.Some? && b.1.Some? && b.0.value > b.1.value) {
      assert Admits(b, if b.0.Some? then b.0.value else if b.1.Some? then b.1.value else 0);
    }
  }

  // ----- conservation of probability -----

  function Known(e: Entry): real {
    if e.Outcome? && e.probability.Some? then e.probability.value else 0.0
  }

  function SumKnown(es: seq<Entry>): real {
    if es == [] then 0.0 else SumKnown(es[..|es| - 1]) + Known(es[|es| - 1])
  }

  lemma {:induction false} SumConcat(a: seq<Entry>, b: seq<Entry>)
    ensures SumKnown(a + b) == SumKnown(a) + SumKnown(b)
    decreases |b|
  {
    if b == [] { assert a + b == a; }
    else {
      assert (a + b)[..|a + b| - 1] == a + b[..|b| - 1];
      SumConcat(a, b[..|b| - 1]);
    }
  }

  /**
   The probability a visit loses: all of it where the visit does not expand, or its weights are unusable, and below
   that what goes to unnamed children and excluded items.
   */
  function Lost(q: Query, v: Visit): real
    requires v.depth <= q.maxDepth
    decreases q.maxDepth - v.depth, 1, 0
  {
    if v.probability.None? then 0.0
    else if !Expands(q, v) || !Weighted(Children(q, v)) then v.probability.value
    else LostFrom(q, v, 0)
  }

  function LostFrom(q: Query, v: Visit, k: nat): real
    requires Expands(q, v) && k <= |Children(q, v)| && v.probability.Some? && Weighted(Children(q, v))
    decreases q.maxDepth - v.depth, 0, |Children(q, v)| - k
  {
    if k == |Children(q, v)| then 0.0 else LostAt(q, v, k) + LostFrom(q, v, k + 1)
  }

  function LostAt(q: Query, v: Visit, k: nat): real
    requires Expands(q, v) && k < |Children(q, v)| && v.probability.Some? && Weighted(Children(q, v))
    decreases q.maxDepth - v.depth, 0, 0
  {
    var mass := BranchProbability(q, v, k).value;
    if Children(q, v)[k].attributes.name == "" then mass
    else if Children(q, v)[k].Ref? then Lost(q, ChildVisit(q, v, 0, k))
    else if ChildOutcome(q, v, 0, k).restriction == Excluded then mass
    else 0.0
  }

  /** Whether the branches of a visit have known probabilities. */
  predicate Shares(q: Query, v: Visit)
    requires Expands(q, v)
  {
    v.probability.Some? && Weighted(Children(q, v))
  }

  /** What enters the children from `k` on. */
  function ShareFrom(q: Query, v: Visit, k: nat): real
    requires Expands(q, v) && k <= |Children(q, v)| && Shares(q, v)
  {
    v.probability.value * (Total(Children(q, v)[k..]) / Total(Children(q, v)))
  }

  lemma ShareStep(q: Query, v: Visit, k: nat)
    requires Expands(q, v) && k < |Children(q, v)| && Shares(q, v)
    ensures ShareFrom(q, v, k) == BranchProbability(q, v, k).value + ShareFrom(q, v, k + 1)
  {
    var children := Children(q, v);
    var p, w, r, t := v.probability.value, NumberOf(children[k].attributes.weight).value, Total(children[k + 1..]), Total(children);
    assert children[k..][1..] == children[k + 1..];
    assert Total(children[k..]) == w + r;
    hide *;
    ShareSplits(p, w, r, t);
  }

  lemma ShareSplits(p: real, w: real, r: real, t: real)
    requires t > 0.0
    ensures p * ((w + r) / t) == p * (w / t) + p * (r / t)
  {
    assert (w + r) / t == w / t + r / t;
  }

  lemma ShareEnds(q: Query, v: Visit)
    requires Expands(q, v) && Shares(q, v)
    ensures ShareFrom(q, v, 0) == v.probability.value && ShareFrom(q, v, |Children(q, v)|) == 0.0
  {
    assert Children(q, v)[0..] == Children(q, v);
    WholeShare(v.probability.value, Total(Children(q, v)));
  }

  lemma WholeShare(p: real, t: real)
    requires t > 0.0
    ensures p * (t / t) == p && p * (0.0 / t) == 0.0
  {
  }

  lemma LostIgnoresSelf(q: Query, v: Visit, self: nat, k: nat)
    requires Expands(q, v) && k < |Children(q, v)|
    ensures Lost(q, ChildVisit(q, v, self, k)) == Lost(q, ChildVisit(q, v, 0, k))
  {
    LostOfParent(q, ChildVisit(q, v, self, k), Some(0));
  }

  lemma {:induction false} LostOfParent(q: Query, v: Visit, parent: Option<nat>)
    requires v.depth <= q.maxDepth
    ensures Lost(q, v) == Lost(q, v.(parent := parent))
    decreases q.maxDepth - v.depth, 1, 0
  {
    if v.probability.Some? && Expands(q, v) && Weighted(Children(q, v)) { LostFromOfParent(q, v, parent, 0); }
  }

  lemma {:induction false} LostFromOfParent(q: Query, v: Visit, parent: Option<nat>, k: nat)
    requires Expands(q, v) && k <= |Children(q, v)| && v.probability.Some? && Weighted(Children(q, v))
    ensures LostFrom(q, v, k) == LostFrom(q, v.(parent := parent), k)
    decreases q.maxDepth - v.depth, 0, |Children(q, v)| - k
  {
    if k < |Children(q, v)| {
      assert ChildVisit(q, v, 0, k) == ChildVisit(q, v.(parent := parent), 0, k);
      LostFromOfParent(q, v, parent, k + 1);
    }
  }

  /**
   Conservation: the known probabilities of a visit's outcomes, and what it loses, add up to exactly the
   probability that enters it. A visit of unknown probability has no known outcome above zero.
   */
  lemma {:induction false} ProbabilityConserved(q: Query, v: Visit, base: nat)
    requires v.depth <= q.maxDepth
    ensures SumKnown(Emit(q, v, base)) + Lost(q, v) == if v.probability.Some? then v.probability.value else 0.0
    decreases q.maxDepth - v.depth, 1, 0
  {
    var node := Node(v, StatusOf(q, v));
    EmitUnfolds(q, v, base);
    assert SumKnown([node]) == 0.0;
    hide Emit, EmitChildren, StatusOf, LostFrom, ShareFrom, Weighted;
    if Expands(q, v) {
      SumConcat([node], EmitChildren(q, v, base, 0, base + 1));
      if Shares(q, v) {
        ConservedFrom(q, v, base, 0, base + 1);
        ShareEnds(q, v);
      } else {
        NothingKnownFrom(q, v, base, 0, base + 1);
      }
    } else {
      assert [node] + [] == [node];
    }
  }

  lemma {:induction false} ConservedFrom(q: Query, v: Visit, self: nat, k: nat, base: nat)
    requires Expands(q, v) && k <= |Children(q, v)| && Shares(q, v)
    ensures SumKnown(EmitChildren(q, v, self, k, base)) + LostFrom(q, v, k) == ShareFrom(q, v, k)
    decreases q.maxDepth - v.depth, 0, |Children(q, v)| - k
  {
    ChildrenUnfold(q, v, self, k, base);
    ShareEnds(q, v);
    hide EmitChildren, EmitChild, LostAt, NodesOf, ShareFrom, BranchProbability, Weighted;
    if k < |Children(q, v)| {
      var here := EmitChild(q, v, self, k, base);
      SumConcat(here, EmitChildren(q, v, self, k + 1, base + NodeCount(here)));
      ConservedAt(q, v, self, k, base);
      ConservedFrom(q, v, self, k + 1, base + NodeCount(here));
      ShareStep(q, v, k);
    }
  }

  lemma {:induction false} ConservedAt(q: Query, v: Visit, self: nat, k: nat, base: nat)
    requires Expands(q, v) && k < |Children(q, v)| && Shares(q, v)
    ensures SumKnown(EmitChild(q, v, self, k, base)) + LostAt(q, v, k) == BranchProbability(q, v, k).value
    decreases q.maxDepth - v.depth, 0, 0
  {
    hide Emit, Lost, Weighted, RestrictionOf;
    if Children(q, v)[k].attributes.name != "" {
      if Children(q, v)[k].Ref? {
        ProbabilityConserved(q, ChildVisit(q, v, self, k), base);
        LostIgnoresSelf(q, v, self, k);
      } else {
        OneKnown(ChildOutcome(q, v, self, k));
      }
    }
  }

  lemma OneKnown(e: Entry)
    ensures SumKnown([e]) == Known(e)
  {
    assert [e][..0] == [];
  }

  lemma {:induction false} NothingKnownFrom(q: Query, v: Visit, self: nat, k: nat, base: nat)
    requires Expands(q, v) && k <= |Children(q, v)| && !Shares(q, v)
    ensures SumKnown(EmitChildren(q, v, self, k, base)) == 0.0
    decreases q.maxDepth - v.depth, 0, |Children(q, v)| - k
  {
    ChildrenUnfold(q, v, self, k, base);
    hide EmitChildren, EmitChild, NodesOf, Weighted;
    if k < |Children(q, v)| {
      var here := EmitChild(q, v, self, k, base);
      SumConcat(here, EmitChildren(q, v, self, k + 1, base + NodeCount(here)));
      NothingKnownAt(q, v, self, k, base);
      NothingKnownFrom(q, v, self, k + 1, base + NodeCount(here));
    }
  }

  lemma {:induction false} NothingKnownAt(q: Query, v: Visit, self: nat, k: nat, base: nat)
    requires Expands(q, v) && k < |Children(q, v)| && !Shares(q, v)
    ensures SumKnown(EmitChild(q, v, self, k, base)) == 0.0
    decreases q.maxDepth - v.depth, 0, 0
  {
    hide Emit, Weighted, RestrictionOf;
    if Children(q, v)[k].attributes.name != "" {
      if Children(q, v)[k].Ref? {
        ProbabilityConserved(q, ChildVisit(q, v, self, k), base);
      } else {
        OneKnown(ChildOutcome(q, v, self, k));
      }
    }
  }

  // ----- no negative probability -----

  predicate AtLeastZero(p: Option<real>) { p.Some? ==> p.value >= 0.0 }

  lemma BranchAtLeastZero(q: Query, v: Visit, k: nat)
    requires Expands(q, v) && k < |Children(q, v)| && AtLeastZero(v.probability)
    ensures AtLeastZero(BranchProbability(q, v, k))
  {
    if Shares(q, v) {
      QuotientAtLeastZero(v.probability.value, NumberOf(Children(q, v)[k].attributes.weight).value, Total(Children(q, v)));
    }
  }

  lemma QuotientAtLeastZero(p: real, w: real, t: real)
    requires p >= 0.0 && w >= 0.0 && t > 0.0
    ensures p * (w / t) >= 0.0
  {
    assert w / t >= 0.0;
  }

  lemma {:induction false} LostAtLeastZero(q: Query, v: Visit)
    requires v.depth <= q.maxDepth && AtLeastZero(v.probability)
    ensures Lost(q, v) >= 0.0
    decreases q.maxDepth - v.depth, 1, 0
  {
    if v.probability.Some? && Expands(q, v) && Weighted(Children(q, v)) { LostFromAtLeastZero(q, v, 0); }
  }

  lemma {:induction false} LostFromAtLeastZero(q: Query, v: Visit, k: nat)
    requires Expands(q, v) && k <= |Children(q, v)| && Shares(q, v) && AtLeastZero(v.probability)
    ensures LostFrom(q, v, k) >= 0.0
    decreases q.maxDepth - v.depth, 0, |Children(q, v)| - k
  {
    if k < |Children(q, v)| {
      hide Lost, Weighted, RestrictionOf, BranchProbability;
      BranchAtLeastZero(q, v, k);
      if Children(q, v)[k].Ref? { LostAtLeastZero(q, ChildVisit(q, v, 0, k)); }
      LostFromAtLeastZero(q, v, k + 1);
    }
  }

  lemma {:induction false} NodeAtLeastZero(q: Query, log: seq<Entry>, i: nat)
    requires Tree(q, log) && i < NodeCount(log)
    ensures NodesOf(log)[i].Node? && AtLeastZero(NodesOf(log)[i].visit.probability)
    decreases i
  {
    NodeLinked(q, log, i);
    var nodes := NodesOf(log);
    hide NodesOf, Tree, BranchProbability, GoodVisit, Weighted;
    if i > 0 {
      var v := nodes[i].visit;
      NodeAtLeastZero(q, log, v.parent.value);
      BranchAtLeastZero(q, nodes[v.parent.value].visit, v.ordinal);
    }
  }

  lemma KnownAtLeastZero(q: Query, log: seq<Entry>, i: nat)
    requires Tree(q, log) && i < |log|
    ensures Known(log[i]) >= 0.0
  {
    TreePrefix(q, log, i);
    assert Linked(q, NodesOf(log[..i]), log[i]);
    hide Tree, BranchProbability, GoodVisit, Weighted, NodesOf, RestrictionOf;
    if log[i].Outcome? {
      var nodes := NodesOf(log[..i]);
      NodeAtLeastZero(q, log[..i], log[i].source);
      BranchAtLeastZero(q, nodes[log[i].source].visit, log[i].ordinal);
    }
  }

  lemma {:induction false} PrefixSum(q: Query, log: seq<Entry>, n: nat)
    requires Tree(q, log) && n <= |log|
    ensures 0.0 <= SumKnown(log[..n]) <= SumKnown(log)
    decreases |log|
  {
    hide Tree, NodesOf, Linked, Known;
    if log == [] {
    } else if n == |log| {
      assert log[..n] == log;
      TreePrefix(q, log, n - 1);
      PrefixSum(q, log[..n - 1], 0);
      KnownAtLeastZero(q, log, n - 1);
    } else {
      TreePrefix(q, log, |log| - 1);
      PrefixSum(q, log[..|log| - 1], n);
      assert log[..|log| - 1][..n] == log[..n];
      KnownAtLeastZero(q, log, |log| - 1);
    }
  }

  lemma {:induction false} SumOfOutcomes(log: seq<Entry>)
    ensures SumKnown(OutcomesOf(log)) == SumKnown(log)
    decreases |log|
  {
    if log != [] {
      var front, last := log[..|log| - 1], log[|log| - 1];
      SumOfOutcomes(front);
      SumConcat(OutcomesOf(front), if last.Outcome? then [last] else []);
      if last.Outcome? { OneKnown(last); }
    }
  }

  // ----- when nothing is lost -----

  predicate AllNamed(children: seq<Child>) { forall i :: 0 <= i < |children| ==> children[i].attributes.name != "" }

  /** Every node goes on to children with usable weights and names, and no item is excluded. */
  predicate Complete(q: Query, es: seq<Entry>) {
    forall e :: e in es ==>
      if e.Node? then Expands(q, e.visit) && Weighted(Children(q, e.visit)) && AllNamed(Children(q, e.visit))
      else e.restriction != Excluded
  }

  lemma CompleteParts(q: Query, a: seq<Entry>, b: seq<Entry>)
    requires Complete(q, a + b)
    ensures Complete(q, a) && Complete(q, b)
  {
    forall e | e in a ensures e in a + b {}
    forall e | e in b ensures e in a + b {}
  }

  lemma {:induction false} NothingLost(q: Query, v: Visit, base: nat)
    requires v.depth <= q.maxDepth && Complete(q, Emit(q, v, base))
    ensures Lost(q, v) == 0.0
    decreases q.maxDepth - v.depth, 1, 0
  {
    var node := Node(v, StatusOf(q, v));
    EmitUnfolds(q, v, base);
    hide Emit, EmitChildren, Weighted, AllNamed, StatusOf, LostFrom;
    assert node in Emit(q, v, base);
    if v.probability.Some? {
      CompleteParts(q, [node], EmitChildren(q, v, base, 0, base + 1));
      NothingLostFrom(q, v, base, 0, base + 1);
    }
  }

  lemma {:induction false} NothingLostFrom(q: Query, v: Visit, self: nat, k: nat, base: nat)
    requires Expands(q, v) && k <= |Children(q, v)| && Shares(q, v) && AllNamed(Children(q, v))
    requires Complete(q, EmitChildren(q, v, self, k, base))
    ensures LostFrom(q, v, k) == 0.0
    decreases q.maxDepth - v.depth, 0, |Children(q, v)| - k
  {
    ChildrenUnfold(q, v, self, k, base);
    hide EmitChildren, Emit, NodesOf, Weighted, Complete, Lost, RestrictionOf, BranchProbability;
    if k < |Children(q, v)| {
      var here := EmitChild(q, v, self, k, base);
      CompleteParts(q, here, EmitChildren(q, v, self, k + 1, base + NodeCount(here)));
      NothingLostFrom(q, v, self, k + 1, base + NodeCount(here));
      if Children(q, v)[k].Ref? {
        NothingLost(q, ChildVisit(q, v, self, k), base);
        LostIgnoresSelf(q, v, self, k);
      } else {
        CompleteOutcome(q, ChildOutcome(q, v, self, k));
      }
    }
  }

  lemma CompleteOutcome(q: Query, e: Entry)
    requires e.Outcome? && Complete(q, [e])
    ensures e.restriction != Excluded
  {
    assert e in [e];
  }

  // ----- the whole resolution -----

  /** Everything below a root preset, and what fits under the node limit. */
  function Whole(q: Query, name: string): seq<Entry> { Emit(q, Root(name), 0) }

  function Kept(q: Query, name: string): seq<Entry> { Fill([], Whole(q, name), q.maxNodes) }

  /** The walk's output is one tree below the root, within the limits, and hands out at most the whole probability. */
  lemma KeptIsTree(q: Query, name: string)
    requires q.maxNodes >= 1
    ensures Tree(q, Kept(q, name)) && Kept(q, name) != []
    ensures 0.0 <= SumKnown(Kept(q, name)) <= SumKnown(Whole(q, name)) == 1.0 - Lost(q, Root(name)) <= 1.0
  {
    var root, all := Root(name), Whole(q, name);
    RootIsLinked(q, name);
    assert all != [] && root.depth == 0 && NodeCount([]) == 0 && root.probability == Some(1.0);
    var n := if |all| <= q.maxNodes then |all| else q.maxNodes;
    assert Kept(q, name) == all[..n];
    assert all == Emit(q, root, 0);
    hide Tree, Linked, Emit, Whole, Kept, Fill, NodesOf, Lost, Root, StatusOf, SumKnown;
    EmitIsTree(q, root, []);
    assert [] + all == all;
    ProbabilityConserved(q, root, 0);
    LostAtLeastZero(q, root);
    TreePrefix(q, all, n);
    PrefixSum(q, all, n);
  }

  lemma RootIsLinked(q: Query, name: string)
    ensures Tree(q, []) && Linked(q, NodesOf([]), Node(Root(name), StatusOf(q, Root(name))))
  {
  }

  /**
   `resolve_inventory_preset`. The lists are those of the first `maxNodes` entries of the full preorder, and the
   flag is set exactly when something was cut off, by either limit.
   */
  method Resolve(q: Query, name: string)
    returns (nodes: seq<Entry>, outcomes: seq<Entry>, edges: seq<Edge>, limitsReached: bool)
    requires q.maxNodes >= 1
    ensures nodes == NodesOf(Kept(q, name)) && outcomes == OutcomesOf(Kept(q, name)) && edges == EdgesOf(Kept(q, name))
    ensures Tree(q, Kept(q, name))
    ensures limitsReached <==> MeetsLimit(q, [], Whole(q, name))
    ensures |edges| == |nodes| + |outcomes| - 1 && |nodes| + |outcomes| <= q.maxNodes
    ensures 0.0 <= SumKnown(outcomes) <= 1.0 - Lost(q, Root(name)) <= 1.0
    ensures |Whole(q, name)| <= q.maxNodes ==> SumKnown(outcomes) == 1.0 - Lost(q, Root(name))
  {
    KeptIsTree(q, name);
    RootIsShallow(q, name);
    KeptWhole(q, name);
    hide *;
    var walker := new Walker(q);
    walker.Walk(Root(name));
    nodes, outcomes, edges, limitsReached := walker.nodes, walker.outcomes, walker.edges, walker.limitsReached;
    WalkerState(walker);
    EdgeCount(q, Kept(q, name));
    SumOfOutcomes(Kept(q, name));
  }

  lemma RootIsShallow(q: Query, name: string)
    ensures Root(name).depth <= q.maxDepth && NodeCount([]) == 0
  {
  }

  lemma KeptWhole(q: Query, name: string)
    ensures Kept(q, name) == Fill([], Emit(q, Root(name), 0), q.maxNodes) && Whole(q, name) == Emit(q, Root(name), 0)
    ensures |Whole(q, name)| <= q.maxNodes ==> Kept(q, name) == Whole(q, name)
  {
  }

  lemma WalkerState(w: Walker)
    requires w.Valid()
    ensures w.nodes == NodesOf(w.log) && w.outcomes == OutcomesOf(w.log) && w.edges == EdgesOf(w.log)
    ensures |w.nodes| + |w.outcomes| == |w.log| <= w.q.maxNodes
  {
  }
}
