/** The candidate registry: lineage targets, parent bindings, cycle detection and shared labels. */
module Lineage {
  import opened Wrappers

  type Id = string
  type Sha = string

  datatype EdgeType = DerivedFrom | RebuiltFrom | VariantOf | Supersedes | RollbackOf
  datatype Edge = Edge(kind: EdgeType, other: Id)
  datatype Alias = Alias(name: string, variantKey: Option<string>)
  datatype Record = Record(id: Id, parent: Option<(Id, Sha)>, artifacts: seq<Sha>, aliases: seq<Alias>, lineage: seq<Edge>)

  /** The records by candidate id. */
  type Graph = map<Id, Record>

  datatype RegistryError = UnknownTarget | BadParent | Cycle | AliasConflict | DifferentRecord

  // ----- lineage as a graph -----

  predicate HasEdge(g: Graph, a: Id, b: Id) {
    a in g && exists i :: 0 <= i < |g[a].lineage| && g[a].lineage[i].other == b
  }

  /** Every edge leads to a registered candidate. */
  predicate TargetsKnown(g: Graph) {
    forall a, i :: a in g && 0 <= i < |g[a].lineage| ==> g[a].lineage[i].other in g
  }

  /** Records sit under their own id and never point at themselves, as the record constructor guarantees. */
  predicate WellFormed(g: Graph) {
    forall a :: a in g ==> g[a].id == a && !HasEdge(g, a, a)
  }

  predicate IsPath(g: Graph, p: seq<Id>) {
    p != [] && forall i :: 0 <= i < |p| - 1 ==> HasEdge(g, p[i], p[i + 1])
  }

  predicate IsCycle(g: Graph, p: seq<Id>) { IsPath(g, p) && |p| > 1 && p[0] == p[|p| - 1] }

  ghost predicate Acyclic(g: Graph) { forall p :: !IsCycle(g, p) }

  /** Every candidate is listed, and after all the candidates it points at. */
  ghost predicate TopologicalOrder(g: Graph, order: seq<Id>) {
    && (forall a :: a in g ==> a in order)
    && Finished(g, order)
  }

  /** Whatever a listed candidate points at is listed before it. */
  ghost predicate Finished(g: Graph, order: seq<Id>) {
    && (forall i :: 0 <= i < |order| ==> order[i] in g && order[i] !in order[..i])
    && (forall i, b :: 0 <= i < |order| && HasEdge(g, order[i], b) ==> b in order[..i])
  }

  // ----- depth-first cycle detection -----

  class CycleCheck {
    const g: Graph
    var visiting: set<Id>
    var visited: set<Id>
    /** The visited candidates in the order their visits ended. */
    ghost var order: seq<Id>

    constructor (g: Graph)
      ensures this.g == g && visiting == {} && visited == {} && order == []
    {
      this.g, visiting, visited, order := g, {}, {}, [];
    }

    ghost predicate Valid()
      reads this
    {
      && visiting !! visited && visiting <= g.Keys
      && (forall a :: a in visited <==> a in order)
      && Finished(g, order)
    }

    /**
     `visit`. The trail is the chain of calls in progress: the candidates being visited, each with an
     edge to the next, the last with an edge to `id`.
     */
    method Visit(id: Id, ghost trail: seq<Id>) returns (ok: bool, ghost cycle: seq<Id>)
      requires Valid() && TargetsKnown(g) && id in g
      requires (forall a :: a in visiting <==> a in trail) && IsPath(g, trail + [id])
      modifies this
      ensures ok ==> Valid() && id in visited && visiting == old(visiting) && old(visited) <= visited
      ensures !ok ==> IsCycle(g, cycle)
      decreases g.Keys - visiting - visited
    {
      cycle := [];
      if id in visiting {
        ghost var k :| 0 <= k < |trail| && trail[k] == id;
        cycle := (trail + [id])[k..];
        PathSuffix(g, trail + [id], k);
        return false, cycle;
      }
      if id in visited { return true, cycle; }
      visiting := visiting + {id};
      assert id in g.Keys - old(visiting) - old(visited);
      var i := 0;
      while i < |g[id].lineage|
        invariant 0 <= i <= |g[id].lineage|
        invariant Valid() && visiting == old(visiting) + {id} && old(visited) <= visited
        invariant forall k :: 0 <= k < i ==> g[id].lineage[k].other in visited
      {
        var other := g[id].lineage[i].other;
        assert HasEdge(g, id, other);
        PathExtends(g, trail + [id], other);
        assert g.Keys - visiting - visited <= g.Keys - old(visiting) - old(visited) - {id};
        ok, cycle := Visit(other, trail + [id]);
        if !ok { return; }
        i := i + 1;
      }
      visiting := visiting - {id};
      visited := visited + {id};
      FinishedExtends(g, order, id);
      order := order + [id];
      ok := true;
    }

    /** `_validate_acyclic`: the candidates may be tried in any order. */
    method Validate() returns (ok: bool, ghost cycle: seq<Id>)
      requires Valid() && TargetsKnown(g) && visiting == {}
      modifies this
      ensures ok ==> TopologicalOrder(g, order)
      ensures !ok ==> IsCycle(g, cycle)
    {
      cycle := [];
      var todo := g.Keys;
      while todo != {}
        invariant Valid() && visiting == {} && todo <= g.Keys
        invariant forall a :: a in g && a !in todo ==> a in visited
        decreases todo
      {
        var id :| id in todo;
        ok, cycle := Visit(id, []);
        if !ok { return; }
        todo := todo - {id};
      }
      ok := true;
    }
  }

  lemma PathSuffix(g: Graph, p: seq<Id>, k: nat)
    requires IsPath(g, p) && k < |p|
    ensures IsPath(g, p[k..])
  {
  }

  lemma PathExtends(g: Graph, p: seq<Id>, b: Id)
    requires IsPath(g, p) && HasEdge(g, p[|p| - 1], b)
    ensures IsPath(g, p + [b])
  {
  }

  lemma FinishedExtends(g: Graph, order: seq<Id>, id: Id)
    requires Finished(g, order) && id in g && id !in order
    requires forall k :: 0 <= k < |g[id].lineage| ==> g[id].lineage[k].other in order
    ensures Finished(g, order + [id])
  {
    var longer := order + [id];
    forall i | 0 <= i < |longer| ensures longer[..i] == if i < |order| then order[..i] else order { }
    assert forall i :: 0 <= i < |order| ==> longer[i] == order[i];
  }

  // ----- the detector is sound and complete -----

  /** Positions in a topological order fall along every path. */
  lemma {:induction false} PathDescends(g: Graph, order: seq<Id>, p: seq<Id>, i: nat) returns (j: nat)
    requires TopologicalOrder(g, order) && IsPath(g, p) && i < |order| && order[i] == p[0]
    ensures j <= i && order[j] == p[|p| - 1] && (|p| > 1 ==> j < i)
    decreases |p|
  {
    j := i;
    if |p| > 1 {
      assert HasEdge(g, order[i], p[1]);
      var k :| 0 <= k < i && order[..i][k] == p[1];
      PathSuffix(g, p, 1);
      j := PathDescends(g, order, p[1..], k);
    }
  }

  lemma {:induction false} OrderMeansAcyclic(g: Graph, order: seq<Id>)
    requires TopologicalOrder(g, order)
    ensures Acyclic(g)
  {
    forall p | IsCycle(g, p) ensures false {
      assert HasEdge(g, p[0], p[1]);
      var i :| 0 <= i < |order| && order[i] == p[0];
      var j := PathDescends(g, order, p, i);
      assert false;
    }
  }

  /** `_validate_acyclic` accepts a closed lineage graph exactly when it has no cycle. */
  method ValidateAcyclic(g: Graph) returns (ok: bool)
    requires TargetsKnown(g)
    ensures ok <==> Acyclic(g)
  {
    var check := new CycleCheck(g);
    ghost var cycle;
    ok, cycle := check.Validate();
    if ok {
      OrderMeansAcyclic(g, check.order);
    } else {
      assert IsCycle(g, cycle);
    }
  }

  /** A new record never closes a cycle: nothing registered before it can point at it. */
  lemma {:induction false} AddingKeepsAcyclic(g: Graph, r: Record)
    requires TargetsKnown(g) && Acyclic(g) && r.id !in g && WellFormed(g[r.id := r])
    ensures Acyclic(g[r.id := r])
  {
    var g' := g[r.id := r];
    forall a ensures !HasEdge(g', a, r.id) {
      assert a in g ==> g'[a] == g[a];
    }
    forall p | IsCycle(g', p) ensures false {
      forall i | 0 <= i < |p| ensures p[i] != r.id {
        var k := if i == 0 then |p| - 1 else i;
        assert p[k - 1 + 1] == p[i] && !HasEdge(g', p[k - 1], r.id);
      }
      forall i | 0 <= i < |p| - 1 ensures HasEdge(g, p[i], p[i + 1]) {
        assert HasEdge(g', p[i], p[i + 1]);
      }
      assert IsCycle(g, p);
    }
  }

  // ----- parent bindings -----

  predicate IsParentEdge(e: Edge) { e.kind == DerivedFrom || e.kind == RebuiltFrom }

  function ParentEdges(lineage: seq<Edge>): seq<Edge> {
    if lineage == [] then []
    else (if IsParentEdge(lineage[0]) then [lineage[0]] else []) + ParentEdges(lineage[1..])
  }

  predicate ParentBound(g: Graph, r: Record) {
    var edges := ParentEdges(r.lineage);
    match r.parent
    case None => edges == []
    case Some((id, sha)) => |edges| == 1 && edges[0].other == id && id in g && sha in g[id].artifacts
  }

  predicate ParentsBound(g: Graph) { forall a :: a in g ==> ParentBound(g, g[a]) }

  lemma {:induction false} ParentEdgeIsEdge(lineage: seq<Edge>, e: Edge)
    requires e in ParentEdges(lineage)
    ensures e in lineage
  {
    if e !in ParentEdges(lineage[1..]) { assert lineage[0] == e; } else { ParentEdgeIsEdge(lineage[1..], e); }
  }

  /** Each candidate of the chain is the immutable parent of the one before it. */
  predicate ParentChain(g: Graph, p: seq<Id>) {
    && p != [] && (forall i :: 0 <= i < |p| ==> p[i] in g)
    && forall i :: 0 <= i < |p| - 1 ==> g[p[i]].parent.Some? && g[p[i]].parent.value.0 == p[i + 1]
  }

  lemma {:induction false} PathHasNoRepeats(g: Graph, p: seq<Id>)
    requires Acyclic(g) && IsPath(g, p)
    ensures forall i, j :: 0 <= i < j < |p| ==> p[i] != p[j]
  {
    forall i, j | 0 <= i < j < |p| ensures p[i] != p[j] {
      if p[i] == p[j] {
        assert IsCycle(g, p[i..j + 1]);
      }
    }
  }

  lemma {:induction false} DistinctFits(p: seq<Id>, s: set<Id>)
    requires (forall i :: 0 <= i < |p| ==> p[i] in s) && (forall i, j :: 0 <= i < j < |p| ==> p[i] != p[j])
    ensures |p| <= |s|
    decreases |p|
  {
    if p != [] {
      assert forall i :: 0 <= i < |p[1..]| ==> p[1..][i] in s - {p[0]};
      DistinctFits(p[1..], s - {p[0]});
    }
  }

  lemma ParentIsTarget(g: Graph, a: Id)
    requires TargetsKnown(g) && ParentsBound(g) && a in g && g[a].parent.Some?
    ensures HasEdge(g, a, g[a].parent.value.0) && g[a].parent.value.0 in g
  {
    assert ParentBound(g, g[a]);
    ParentEdgeIsEdge(g[a].lineage, ParentEdges(g[a].lineage)[0]);
  }

  /** In a validated registry, following parents from any candidate ends at one without a parent. */
  lemma {:induction false} ParentsReachRoot(g: Graph, p: seq<Id>) returns (chain: seq<Id>)
    requires TargetsKnown(g) && Acyclic(g) && ParentsBound(g) && ParentChain(g, p) && IsPath(g, p)
    ensures ParentChain(g, chain) && chain[0] == p[0] && g[chain[|chain| - 1]].parent.None?
    decreases |g.Keys| - |p|
  {
    hide Acyclic, ParentsBound, TargetsKnown, IsPath;
    var last := p[|p| - 1];
    if g[last].parent.None? {
      chain := p;
    } else {
      var longer := p + [g[last].parent.value.0];
      ParentIsTarget(g, last);
      PathExtends(g, p, longer[|p|]);
      LongerChain(g, p, longer[|p|]);
      PathHasNoRepeats(g, longer);
      DistinctFits(longer, g.Keys);
      chain := ParentsReachRoot(g, longer);
    }
  }

  lemma LongerChain(g: Graph, p: seq<Id>, b: Id)
    requires ParentChain(g, p) && b in g && g[p[|p| - 1]].parent.Some? && g[p[|p| - 1]].parent.value.0 == b
    ensures ParentChain(g, p + [b])
  {
  }

  // ----- shared labels -----

  /** One `variant_of` edge, in either direction. */
  predicate Neighbors(g: Graph, a: Id, b: Id) {
    a in g && b in g && (HasVariantEdge(g, a, b) || HasVariantEdge(g, b, a))
  }

  predicate HasVariantEdge(g: Graph, a: Id, b: Id)
    requires a in g
  {
    exists i :: 0 <= i < |g[a].lineage| && g[a].lineage[i] == Edge(VariantOf, b)
  }

  predicate VariantPath(g: Graph, p: seq<Id>) {
    p != [] && p[0] in g && forall i :: 0 <= i < |p| - 1 ==> Neighbors(g, p[i], p[i + 1])
  }

  ghost predicate Connected(g: Graph, a: Id, b: Id) {
    exists p :: VariantPath(g, p) && p[0] == a && p[|p| - 1] == b
  }

  lemma ConnectedToSelf(g: Graph, a: Id)
    requires a in g
    ensures Connected(g, a, a)
  {
    assert VariantPath(g, [a]);
  }

  lemma ConnectedStep(g: Graph, a: Id, b: Id, c: Id)
    requires Connected(g, a, b) && Neighbors(g, b, c)
    ensures Connected(g, a, c)
  {
    var p :| VariantPath(g, p) && p[0] == a && p[|p| - 1] == b;
    assert VariantPath(g, p + [c]) && (p + [c])[0] == a;
  }

  /** A set closed under `variant_of` that holds the start of a path holds all of it. */
  lemma {:induction false} ClosedHoldsPath(g: Graph, s: set<Id>, p: seq<Id>)
    requires VariantPath(g, p) && p[0] in s && (forall a, b :: a in s && Neighbors(g, a, b) ==> b in s)
    ensures p[|p| - 1] in s
    decreases |p|
  {
    if |p| > 1 {
      assert Neighbors(g, p[0], p[1]);
      ClosedHoldsPath(g, s, p[1..]);
    }
  }

  lemma {:induction false} ConnectedSymmetric(g: Graph, p: seq<Id>)
    requires VariantPath(g, p)
    ensures Connected(g, p[|p| - 1], p[0])
    decreases |p|
  {
    if |p| == 1 {
      ConnectedToSelf(g, p[0]);
    } else {
      assert Neighbors(g, p[0], p[1]);
      ConnectedSymmetric(g, p[1..]);
      ConnectedStep(g, p[|p| - 1], p[1], p[0]);
    }
  }

  lemma {:induction false} ConnectedTransitive(g: Graph, a: Id, p: seq<Id>)
    requires VariantPath(g, p) && Connected(g, a, p[0])
    ensures Connected(g, a, p[|p| - 1])
    decreases |p|
  {
    if |p| > 1 {
      ConnectedStep(g, a, p[0], p[1]);
      ConnectedTransitive(g, a, p[1..]);
    }
  }

  function VariantNeighbors(g: Graph, a: Id): set<Id> { set b | b in g && Neighbors(g, a, b) }

  /** The worklist: exactly the candidates connected to the start. */
  method Reachable(g: Graph, start: Id) returns (reachable: set<Id>)
    requires start in g
    ensures forall a :: a in reachable <==> Connected(g, start, a)
  {
    reachable := {start};
    var pending := [start];
    ConnectedToSelf(g, start);
    while pending != []
      invariant start in reachable && reachable <= g.Keys
      invariant forall a :: a in reachable ==> Connected(g, start, a)
      invariant forall a :: a in pending ==> a in reachable
      invariant forall a, b :: a in reachable && a !in pending && Neighbors(g, a, b) ==> b in reachable
      decreases g.Keys - reachable, |pending|
    {
      var current := pending[|pending| - 1];
      ghost var before := pending;
      pending := pending[..|pending| - 1];
      assert forall a :: a in before ==> a in pending || a == current;
      var unseen := VariantNeighbors(g, current) - reachable;
      ghost var known, rest := reachable, pending;
      while unseen != {}
        invariant unseen <= VariantNeighbors(g, current) && unseen !! reachable && reachable <= g.Keys
        invariant VariantNeighbors(g, current) <= reachable + unseen && start in reachable && current in reachable
        invariant forall a :: a in reachable ==> Connected(g, start, a)
        invariant forall a :: a in pending ==> a in reachable
        invariant forall a, b :: a in reachable && a !in pending && a != current && Neighbors(g, a, b) ==> b in reachable
        invariant known <= reachable && (reachable == known ==> pending == rest)
        decreases unseen
      {
        var neighbor :| neighbor in unseen;
        ConnectedStep(g, start, current, neighbor);
        reachable, unseen := reachable + {neighbor}, unseen - {neighbor};
        pending := pending + [neighbor];
      }
    }
    forall a | Connected(g, start, a) ensures a in reachable {
      var p :| VariantPath(g, p) && p[0] == start && p[|p| - 1] == a;
      ClosedHoldsPath(g, reachable, p);
    }
  }

  /** What the alias check promises: a label shared by two candidates has one variant key, and they are connected. */
  ghost predicate AliasesAgree(g: Graph, fold: string -> string) {
    forall a, b, x, y :: a in g && b in g && a != b && x in g[a].aliases && y in g[b].aliases && fold(x.name) == fold(y.name) ==>
      x.variantKey.Some? && x.variantKey == y.variantKey && Connected(g, a, b)
  }

  /** The candidates and aliases behind one folded label. */
  function Members(g: Graph, fold: string -> string, text: string): set<(Id, Alias)> {
    set a, x | a in g && x in g[a].aliases && fold(x.name) == text :: (a, x)
  }

  /** One round of the alias check, for one folded label. */
  method CheckLabel(g: Graph, fold: string -> string, text: string) returns (ok: bool)
    ensures ok <==> LabelAgrees(g, Members(g, fold, text))
  {
    var members := Members(g, fold, text);
    var ids := set m <- members :: m.0;
    if |ids| < 2 {
      FewIds(members, ids);
      return true;
    }
    var a, b := TwoIds(ids);
    var keys := set m <- members :: m.1.variantKey;
    if None in keys || |keys| != 1 {
      if LabelAgrees(g, members) { OneKey(g, members, keys, a, b); }
      return false;
    }
    var start :| start in ids;
    var reachable := Reachable(g, start);
    ok := ids <= reachable;
    if ok {
      AllConnected(g, members, ids, keys, start);
    } else {
      var missing :| missing in ids && missing !in reachable;
      var m :| m in members && m.0 == missing;
      var n :| n in members && n.0 == start;
      ConnectedToSelf(g, start);
      assert !Connected(g, n.0, m.0);
    }
  }

  ghost predicate LabelAgrees(g: Graph, members: set<(Id, Alias)>) {
    forall m, n :: m in members && n in members && m.0 != n.0 ==>
      m.1.variantKey.Some? && m.1.variantKey == n.1.variantKey && Connected(g, m.0, n.0)
  }

  lemma FewIds(members: set<(Id, Alias)>, ids: set<Id>)
    requires ids == (set m <- members :: m.0) && |ids| < 2
    ensures forall m, n :: m in members && n in members ==> m.0 == n.0
  {
    forall m, n | m in members && n in members ensures m.0 == n.0 {
      if m.0 != n.0 {
        assert {m.0, n.0} <= ids;
        SubsetSize({m.0, n.0}, ids);
      }
    }
  }

  lemma TwoIds(ids: set<Id>) returns (a: Id, b: Id)
    requires |ids| >= 2
    ensures a in ids && b in ids && a != b
  {
    a :| a in ids;
    assert |ids - {a}| > 0;
    b :| b in ids - {a};
  }

  /** Where the pairs of a label agree and there are two candidates, all its aliases share one key. */
  lemma {:induction false} OneKey(g: Graph, members: set<(Id, Alias)>, keys: set<Option<string>>, a: Id, b: Id)
    requires keys == (set m <- members :: m.1.variantKey) && LabelAgrees(g, members) && a != b
    requires (exists m :: m in members && m.0 == a) && (exists m :: m in members && m.0 == b)
    ensures None !in keys && |keys| == 1
  {
    var ma :| ma in members && ma.0 == a;
    var mb :| mb in members && mb.0 == b;
    forall m | m in members ensures m.1.variantKey == ma.1.variantKey {
      if m.0 == a { assert m.1.variantKey == mb.1.variantKey; }
    }
    assert ma.1.variantKey in keys;
    assert keys == {ma.1.variantKey};
  }

  lemma {:induction false} AllConnected(g: Graph, members: set<(Id, Alias)>, ids: set<Id>, keys: set<Option<string>>, start: Id)
    requires ids == (set m <- members :: m.0) && keys == (set m <- members :: m.1.variantKey)
    requires None !in keys && |keys| == 1 && forall a :: a in ids ==> Connected(g, start, a)
    ensures LabelAgrees(g, members)
  {
    var key :| key in keys;
    assert keys == {key} by { assert |keys - {key}| == 0; }
    forall m, n | m in members && n in members && m.0 != n.0
      ensures m.1.variantKey == key && n.1.variantKey == key && Connected(g, m.0, n.0)
    {
      assert m.1.variantKey in keys && n.1.variantKey in keys && m.0 in ids && n.0 in ids;
      var p :| VariantPath(g, p) && p[0] == start && p[|p| - 1] == m.0;
      ConnectedSymmetric(g, p);
      var q :| VariantPath(g, q) && q[0] == start && q[|q| - 1] == n.0;
      ConnectedTransitive(g, m.0, q);
    }
  }

  /** `_validate_aliases`: every label in turn. */
  method ValidateAliases(g: Graph, fold: string -> string) returns (ok: bool)
    ensures ok <==> AliasesAgree(g, fold)
  {
    var labels := set a, x | a in g && x in g[a].aliases :: fold(x.name);
    var todo := labels;
    while todo != {}
      invariant todo <= labels
      invariant forall t :: t in labels && t !in todo ==> LabelAgrees(g, Members(g, fold, t))
      decreases todo
    {
      var text :| text in todo;
      ok := CheckLabel(g, fold, text);
      if !ok {
        ByLabel(g, fold, text);
        return false;
      }
      todo := todo - {text};
    }
    forall t ensures LabelAgrees(g, Members(g, fold, t)) {
      if t !in labels { assert Members(g, fold, t) == {}; }
    }
    forall t { ByLabel(g, fold, t); }
    ok := true;
    PairsFromLabels(g, fold);
  }

  lemma ByLabel(g: Graph, fold: string -> string, text: string)
    ensures AliasesAgree(g, fold) ==> LabelAgrees(g, Members(g, fold, text))
  {
    hide Connected;
  }

  lemma PairsFromLabels(g: Graph, fold: string -> string)
    requires forall t :: LabelAgrees(g, Members(g, fold, t))
    ensures AliasesAgree(g, fold)
  {
    hide Connected;
    forall a, b, x, y | a in g && b in g && a != b && x in g[a].aliases && y in g[b].aliases && fold(x.name) == fold(y.name)
      ensures x.variantKey.Some? && x.variantKey == y.variantKey && Connected(g, a, b)
    {
      var members := Members(g, fold, fold(x.name));
      assert (a, x) in members && (b, y) in members;
      assert LabelAgrees(g, members);
    }
  }

  // ----- the registry -----

  ghost predicate ValidRegistry(g: Graph, fold: string -> string) {
    WellFormed(g) && TargetsKnown(g) && ParentsBound(g) && Acyclic(g) && AliasesAgree(g, fold)
  }

  /** The constructor's checks, in its order. */
  method Construct(g: Graph, fold: string -> string) returns (r: Result<Graph, RegistryError>)
    requires WellFormed(g)
    ensures r.Ok? <==> ValidRegistry(g, fold)
    ensures r.Ok? ==> r.value == g
    ensures r == Err(UnknownTarget) <==> !TargetsKnown(g)
    ensures r == Err(BadParent) <==> TargetsKnown(g) && !ParentsBound(g)
    ensures r == Err(Cycle) <==> TargetsKnown(g) && ParentsBound(g) && !Acyclic(g)
    ensures r == Err(AliasConflict) <==> TargetsKnown(g) && ParentsBound(g) && Acyclic(g) && !AliasesAgree(g, fold)
  {
    if !TargetsKnown(g) { return Err(UnknownTarget); }
    if !ParentsBound(g) { return Err(BadParent); }
    var ok := ValidateAcyclic(g);
    if !ok { return Err(Cycle); }
    ok := ValidateAliases(g, fold);
    return if ok then Ok(g) else Err(AliasConflict);
  }

  /** `add`: it extends a valid registry without touching a record, and no addition is ever refused for a cycle. */
  method Add(g: Graph, fold: string -> string, record: Record) returns (r: Result<Graph, RegistryError>)
    requires ValidRegistry(g, fold) && WellFormed(g[record.id := record])
    ensures r.Ok? ==> ValidRegistry(r.value, fold) && r.value == g[record.id := record]
    ensures r.Ok? ==> forall a :: a in g ==> r.value[a] == g[a]
    ensures record.id in g ==> r == if g[record.id] == record then Ok(g) else Err(DifferentRecord)
    ensures record.id !in g ==> (r.Ok? <==> var longer := g[record.id := record];
      TargetsKnown(longer) && ParentBound(longer, record) && AliasesAgree(longer, fold))
    ensures r != Err(Cycle)
  {
    if record.id in g {
      if g[record.id] == record {
        assert g[record.id := record] == g;
        return Ok(g);
      }
      return Err(DifferentRecord);
    }
    var longer := g[record.id := record];
    r := Construct(longer, fold);
    AddingKeepsAcyclic(g, record);
    OldParentsStayBound(g, record);
  }

  lemma OldParentsStayBound(g: Graph, r: Record)
    requires ParentsBound(g) && r.id !in g
    ensures ParentsBound(g[r.id := r]) <==> ParentBound(g[r.id := r], r)
  {
    var longer := g[r.id := r];
    forall a | a in g ensures ParentBound(longer, longer[a]) {
      assert ParentBound(g, g[a]);
    }
    assert longer[r.id] == r;
  }

  /** The registries that additions can build from the empty one. */
  method Build(records: seq<Record>, fold: string -> string) returns (g: Graph, refused: seq<RegistryError>)
    requires forall i :: 0 <= i < |records| ==> forall e :: e in records[i].lineage ==> e.other != records[i].id
    ensures ValidRegistry(g, fold) && Cycle !in refused
    ensures forall a :: a in g ==> g[a] in records
  {
    g, refused := map[], [];
    EmptyIsValid(fold);
    for i := 0 to |records|
      invariant ValidRegistry(g, fold) && Cycle !in refused
      invariant forall a :: a in g ==> g[a] in records
    {
      SelfEdgeFree(g, records[i]);
      var r := Add(g, fold, records[i]);
      match r
      case Ok(longer) => g := longer;
      case Err(e) => refused := refused + [e];
    }
  }

  lemma EmptyIsValid(fold: string -> string)
    ensures ValidRegistry(map[], fold)
  {
    forall p ensures !IsCycle(map[], p) {
      if |p| > 1 { assert !HasEdge(map[], p[0], p[0 + 1]); }
    }
  }

  lemma SelfEdgeFree(g: Graph, r: Record)
    requires WellFormed(g) && forall e :: e in r.lineage ==> e.other != r.id
    ensures WellFormed(g[r.id := r])
  {
    forall a | a in g && a != r.id ensures !HasEdge(g[r.id := r], a, a) {
      assert !HasEdge(g, a, a);
    }
  }
}
