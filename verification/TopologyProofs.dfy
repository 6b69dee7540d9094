/** Parents, locators and containment edges of the collected elements. */
module TopologyProofs {
  import opened Wrappers
  import opened Topology

  // ----- true parents -----

  /** Record `c` is a child of record `p`, and is located as that child. */
  predicate IsChild(p: Record, c: Record) {
    c.parent == Some(p.index)
    && exists k :: 0 <= k < |p.element.children|
                   && p.element.children[k] == c.element && c.steps == p.steps + [Step(p.element.children, k)]
  }

  /** The parent of entry `i` is an earlier entry, when the entries are numbered from `base`. */
  predicate HasParent(rs: seq<Record>, base: nat, i: nat)
    requires i < |rs|
  {
    rs[i].parent.Some? && base <= rs[i].parent.value < base + i && IsChild(rs[rs[i].parent.value - base], rs[i])
  }

  predicate Numbered(rs: seq<Record>, base: nat) { forall i :: 0 <= i < |rs| ==> rs[i].index == base + i }

  lemma ParentInPrefix(a: seq<Record>, b: seq<Record>, base: nat, i: nat)
    requires i < |a| && HasParent(a, base, i)
    ensures HasParent(a + b, base, i)
  {
    hide IsChild;
  }

  lemma ParentInSuffix(a: seq<Record>, b: seq<Record>, base: nat, i: nat)
    requires i < |b| && HasParent(b, base + |a|, i)
    ensures HasParent(a + b, base, |a| + i)
  {
    hide IsChild;
  }

  /** Entries that hang below an element outside the list, or inside it. */
  predicate Hangs(p: Record, rs: seq<Record>, base: nat) {
    forall i :: 0 <= i < |rs| ==> IsChild(p, rs[i]) || HasParent(rs, base, i)
  }

  lemma HangsTogether(p: Record, a: seq<Record>, b: seq<Record>, base: nat)
    requires Hangs(p, a, base) && Hangs(p, b, base + |a|)
    ensures Hangs(p, a + b, base)
  {
    hide IsChild, HasParent;
    forall i | 0 <= i < |a + b| ensures IsChild(p, (a + b)[i]) || HasParent(a + b, base, i) {
      if i < |a| {
        if HasParent(a, base, i) { ParentInPrefix(a, b, base, i); }
      } else {
        if HasParent(b, base + |a|, i - |a|) { ParentInSuffix(a, b, base, i - |a|); }
      }
    }
  }

  lemma NumberedTogether(a: seq<Record>, b: seq<Record>, base: nat)
    requires Numbered(a, base) && Numbered(b, base + |a|)
    ensures Numbered(a + b, base)
  {
  }

  /** Every record but the first has an earlier record as its true parent. */
  predicate Rooted(rs: seq<Record>, base: nat) {
    Numbered(rs, base) && forall i :: 1 <= i < |rs| ==> HasParent(rs, base, i)
  }

  lemma {:induction false} PreorderIsRooted(x: Xml, steps: Steps, parent: Option<nat>, index: nat)
    ensures Rooted(Preorder(x, steps, parent, index), index)
    decreases x, 1, 0
  {
    var top, below := Record(x, steps, parent, index), Below(x, steps, index, 0, index + 1);
    assert Preorder(x, steps, parent, index) == [top] + below;
    BelowHangs(x, steps, parent, index, 0, index + 1);
    hide Preorder, Below;
    TopAndBelow(top, below);
  }

  lemma TopAndBelow(top: Record, below: seq<Record>)
    requires Hangs(top, below, top.index + 1) && Numbered(below, top.index + 1)
    ensures Rooted([top] + below, top.index)
  {
    hide IsChild;
    var rs := [top] + below;
    forall i | 1 <= i < |rs| ensures HasParent(rs, top.index, i) {
      assert rs[i] == below[i - 1];
      if HasParent(below, top.index + 1, i - 1) {
        ParentInSuffix([top], below, top.index, i - 1);
      } else {
        assert IsChild(top, below[i - 1]);
        ChildNamesParent(top, rs[i]);
      }
    }
  }

  lemma ChildNamesParent(p: Record, c: Record)
    requires IsChild(p, c)
    ensures c.parent == Some(p.index)
  {
  }

  lemma {:induction false} BelowHangs(x: Xml, steps: Steps, parent: Option<nat>, self: nat, k: nat, index: nat)
    requires k <= |x.children|
    ensures Hangs(Record(x, steps, parent, self), Below(x, steps, self, k, index), index)
    ensures Numbered(Below(x, steps, self, k, index), index)
    decreases x, 0, |x.children| - k
  {
    if k < |x.children| {
      var top, child := Record(x, steps, parent, self), x.children[k];
      var down := steps + [Step(x.children, k)];
      var here := Preorder(child, down, Some(self), index);
      var rest := Below(x, steps, self, k + 1, index + |here|);
      BelowUnfolds(x, steps, self, k, index);
      PreorderIsRooted(child, down, Some(self), index);
      BelowHangs(x, steps, parent, self, k + 1, index + |here|);
      FirstIs(child, down, Some(self), index);
      assert IsChild(top, here[0]);
      hide Preorder, Below, IsChild, HasParent;
      assert Hangs(top, here, index);
      HangsTogether(top, here, rest, index);
      NumberedTogether(here, rest, index);
    }
  }

  lemma FirstIs(x: Xml, steps: Steps, parent: Option<nat>, index: nat)
    ensures var rs := Preorder(x, steps, parent, index); rs != [] && rs[0] == Record(x, steps, parent, index)
  {
  }

  /** The records are numbered in order; the root has no parent, and every other parent is earlier and true. */
  lemma ParentsAreTrue(root: Xml)
    ensures var rs := AllRecords(root);
      && rs != [] && rs[0] == Record(root, [(root.tag, 1)], None, 0)
      && (forall i :: 0 <= i < |rs| ==> rs[i].index == i)
      && (forall i :: 1 <= i < |rs| ==> rs[i].parent.Some? && rs[i].parent.value < i && IsChild(rs[rs[i].parent.value], rs[i]))
  {
    PreorderIsRooted(root, [(root.tag, 1)], None, 0);
    hide Preorder, IsChild;
    var rs := AllRecords(root);
    assert Rooted(rs, 0);
    forall i | 1 <= i < |rs| ensures rs[i].parent.Some? && rs[i].parent.value < i && IsChild(rs[rs[i].parent.value], rs[i]) {
      assert HasParent(rs, 0, i);
    }
  }

  // ----- distinct locators -----

  predicate Under(l: Steps, prefix: Steps) { |prefix| <= |l| && l[..|prefix|] == prefix }

  lemma {:induction false} CountSteps(children: seq<Xml>, j: nat, k: nat)
    requires j < k < |children|
    ensures Step(children, j) != Step(children, k)
  {
    CountGrows(children, j + 1, k, children[j].tag);
  }

  lemma {:induction false} PreorderUnder(x: Xml, steps: Steps, parent: Option<nat>, index: nat, i: nat)
    requires i < |Preorder(x, steps, parent, index)|
    ensures Under(Preorder(x, steps, parent, index)[i].steps, steps)
    ensures i > 0 ==> |Preorder(x, steps, parent, index)[i].steps| > |steps|
    decreases x, 1, 0
  {
    if i > 0 {
      BelowUnder(x, steps, index, 0, index + 1, i - 1);
      assert Preorder(x, steps, parent, index)[i] == Below(x, steps, index, 0, index + 1)[i - 1];
    }
  }

  /** The number of the child that entry `i` lies below. */
  lemma {:induction false} BelowUnder(x: Xml, steps: Steps, self: nat, k: nat, index: nat, i: nat)
    requires k <= |x.children| && i < |Below(x, steps, self, k, index)|
    ensures var l := Below(x, steps, self, k, index)[i].steps;
      Under(l, steps) && |l| > |steps| && exists j :: k <= j < |x.children| && l[|steps|] == Step(x.children, j)
    decreases x, 0, |x.children| - k
  {
    BelowIsEmpty(x, steps, self, index);
    var down := steps + [Step(x.children, k)];
    var here := Preorder(x.children[k], down, Some(self), index);
    BelowUnfolds(x, steps, self, k, index);
    if i < |here| {
      PreorderUnder(x.children[k], down, Some(self), index, i);
      StepBelow(here[i].steps, steps, Step(x.children, k));
    } else {
      BelowUnder(x, steps, self, k + 1, index + |here|, i - |here|);
    }
  }

  lemma StepBelow(l: Steps, steps: Steps, s: (string, nat))
    requires Under(l, steps + [s])
    ensures Under(l, steps) && |l| > |steps| && l[|steps|] == s
  {
    assert l[..|steps|] == l[..|steps| + 1][..|steps|];
    assert l[|steps|] == l[..|steps| + 1][|steps|];
  }

  lemma BelowIsEmpty(x: Xml, steps: Steps, self: nat, index: nat)
    ensures Below(x, steps, self, |x.children|, index) == []
  {
  }

  predicate Distinct(rs: seq<Record>) { forall i, j :: 0 <= i < j < |rs| ==> rs[i].steps != rs[j].steps }

  lemma DistinctTogether(a: seq<Record>, b: seq<Record>)
    requires Distinct(a) && Distinct(b)
    requires forall i, j :: 0 <= i < |a| && 0 <= j < |b| ==> a[i].steps != b[j].steps
    ensures Distinct(a + b)
  {
  }

  lemma {:induction false} PreorderDistinct(x: Xml, steps: Steps, parent: Option<nat>, index: nat)
    ensures Distinct(Preorder(x, steps, parent, index))
    decreases x, 1, 0
  {
    var top, below := Record(x, steps, parent, index), Below(x, steps, index, 0, index + 1);
    assert Preorder(x, steps, parent, index) == [top] + below;
    BelowDistinct(x, steps, index, 0, index + 1);
    forall j | 0 <= j < |below| ensures below[j].steps != steps { BelowUnder(x, steps, index, 0, index + 1, j); }
    hide Preorder, Below;
    DistinctTogether([top], below);
  }

  lemma {:induction false} BelowDistinct(x: Xml, steps: Steps, self: nat, k: nat, index: nat)
    requires k <= |x.children|
    ensures Distinct(Below(x, steps, self, k, index))
    decreases x, 0, |x.children| - k
  {
    if k < |x.children| {
      var down := steps + [Step(x.children, k)];
      var here := Preorder(x.children[k], down, Some(self), index);
      var rest := Below(x, steps, self, k + 1, index + |here|);
      BelowUnfolds(x, steps, self, k, index);
      PreorderDistinct(x.children[k], down, Some(self), index);
      BelowDistinct(x, steps, self, k + 1, index + |here|);
      forall i, j | 0 <= i < |here| && 0 <= j < |rest| ensures here[i].steps != rest[j].steps {
        PreorderUnder(x.children[k], down, Some(self), index, i);
        StepBelow(here[i].steps, steps, Step(x.children, k));
        BelowUnder(x, steps, self, k + 1, index + |here|, j);
        var m :| k + 1 <= m < |x.children| && rest[j].steps[|steps|] == Step(x.children, m);
        CountSteps(x.children, k, m);
      }
      hide Preorder, Below;
      DistinctTogether(here, rest);
    }
  }

  // ----- distinct texts -----

  /** XML names hold neither of the characters that structure a locator. */
  predicate PlainName(tag: string) { '/' !in tag && '[' !in tag }

  predicate PlainNames(x: Xml) { PlainName(x.tag) && forall i :: 0 <= i < |x.children| ==> PlainNames(x.children[i]) }

  predicate PlainSteps(steps: Steps) { forall i :: 0 <= i < |steps| ==> PlainName(steps[i].0) }

  lemma {:induction false} PreorderPlain(x: Xml, steps: Steps, parent: Option<nat>, index: nat, i: nat)
    requires PlainNames(x) && PlainSteps(steps) && i < |Preorder(x, steps, parent, index)|
    ensures PlainSteps(Preorder(x, steps, parent, index)[i].steps)
    decreases x, 1, 0
  {
    if i > 0 {
      BelowPlain(x, steps, index, 0, index + 1, i - 1);
      assert Preorder(x, steps, parent, index)[i] == Below(x, steps, index, 0, index + 1)[i - 1];
    }
  }

  lemma {:induction false} BelowPlain(x: Xml, steps: Steps, self: nat, k: nat, index: nat, i: nat)
    requires PlainNames(x) && PlainSteps(steps) && k <= |x.children| && i < |Below(x, steps, self, k, index)|
    ensures PlainSteps(Below(x, steps, self, k, index)[i].steps)
    decreases x, 0, |x.children| - k
  {
    BelowIsEmpty(x, steps, self, index);
    var down := steps + [Step(x.children, k)];
    var here := Preorder(x.children[k], down, Some(self), index);
    BelowUnfolds(x, steps, self, k, index);
    assert PlainNames(x.children[k]);
    if i < |here| { PreorderPlain(x.children[k], down, Some(self), index, i); }
    else { BelowPlain(x, steps, self, k + 1, index + |here|, i - |here|); }
  }

  lemma {:induction false} DecimalIsPlain(n: nat)
    ensures Decimal(n) != [] && forall c :: c in Decimal(n) ==> c != '/' && c != '[' && c != ']'
    decreases n
  {
    if n >= 10 { DecimalIsPlain(n / 10); }
  }

  lemma {:induction false} DecimalInjective(n: nat, m: nat)
    requires Decimal(n) == Decimal(m)
    ensures n == m
    decreases n
  {
    DecimalIsPlain(n / 10);
    DecimalIsPlain(m / 10);
    var a, b := Decimal(n), Decimal(m);
    assert a[|a| - 1] == b[|b| - 1];
    DigitInjective(n % 10, m % 10);
    if n >= 10 && m >= 10 {
      assert a[..|a| - 1] == Decimal(n / 10) && b[..|b| - 1] == Decimal(m / 10);
      DecimalInjective(n / 10, m / 10);
    } else {
      assert n < 10 && m < 10 by { assert |a| == |b|; }
    }
  }

  lemma DigitInjective(d: nat, e: nat)
    requires d < 10 && e < 10
    ensures Digit(d) == Digit(e) ==> d == e
  {
  }

  /** A text splits in one way before the last occurrence of a character. */
  lemma SplitAtLast(a: string, s: string, b: string, t: string, c: char)
    requires a + [c] + s == b + [c] + t && c !in s && c !in t
    ensures a == b && s == t
  {
    var whole := a + [c] + s;
    NotEarlier(a, s, b, t, c);
    NotEarlier(b, t, a, s, c);
    assert a == whole[..|a|] && b == whole[..|b|] && s == whole[|a| + 1..] && t == whole[|b| + 1..];
  }

  lemma NotEarlier(a: string, s: string, b: string, t: string, c: char)
    requires a + [c] + s == b + [c] + t && c !in s
    ensures |b| <= |a|
  {
    var whole := a + [c] + s;
    assert whole[|b|] == (b + [c] + t)[|b|] == c;
    assert forall i :: |a| < i < |whole| ==> whole[i] == s[i - |a| - 1];
  }

  lemma SegmentInjective(a: (string, nat), b: (string, nat))
    requires PlainName(a.0) && PlainName(b.0) && Segment(a) == Segment(b)
    ensures a == b
  {
    var da, db := Decimal(a.1), Decimal(b.1);
    DecimalIsPlain(a.1);
    DecimalIsPlain(b.1);
    assert Segment(a) == a.0 + "[" + (da + "]") && Segment(b) == b.0 + "[" + (db + "]");
    hide Decimal, Segment;
    SplitAtLast(a.0, da + "]", b.0, db + "]", '[');
    assert da == (da + "]")[..|da|] && db == (db + "]")[..|db|];
    DecimalInjective(a.1, b.1);
  }

  lemma SegmentHasNoSlash(step: (string, nat))
    requires PlainName(step.0)
    ensures '/' !in Segment(step)
  {
    DecimalIsPlain(step.1);
    hide Decimal;
  }

  /** Different locators are different texts. */
  lemma {:induction false} RenderInjective(a: Steps, b: Steps)
    requires PlainSteps(a) && PlainSteps(b) && Render(a) == Render(b)
    ensures a == b
    decreases |a|
  {
    hide Segment;
    if a != [] && b != [] {
      var fa, fb, la, lb := a[..|a| - 1], b[..|b| - 1], a[|a| - 1], b[|b| - 1];
      SegmentHasNoSlash(la);
      SegmentHasNoSlash(lb);
      SplitAtLast(Render(fa), Segment(la), Render(fb), Segment(lb), '/');
      SegmentInjective(la, lb);
      RenderInjective(fa, fb);
      assert a == fa + [la] && b == fb + [lb];
    }
  }

  /** No two elements of a document share a locator. */
  lemma LocatorsDistinct(base: string, root: Xml)
    requires PlainNames(root)
    ensures var rs := AllRecords(root);
      forall i, j :: 0 <= i < j < |rs| ==> base + Render(rs[i].steps) != base + Render(rs[j].steps)
  {
    var rs, steps := AllRecords(root), [(root.tag, 1)];
    PreorderDistinct(root, steps, None, 0);
    hide Preorder, Render;
    forall i, j | 0 <= i < j < |rs| ensures base + Render(rs[i].steps) != base + Render(rs[j].steps) {
      PreorderPlain(root, steps, None, 0, i);
      PreorderPlain(root, steps, None, 0, j);
      if base + Render(rs[i].steps) == base + Render(rs[j].steps) {
        assert (base + Render(rs[i].steps))[|base|..] == Render(rs[i].steps);
        assert (base + Render(rs[j].steps))[|base|..] == Render(rs[j].steps);
        RenderInjective(rs[i].steps, rs[j].steps);
        assert false;
      }
    }
  }

  // ----- containment edges -----

  const MAX_NODES := 100_000

  function Underscored(tag: string): string { seq(|tag|, i requires 0 <= i < |tag| => if tag[i] == '-' then '_' else tag[i]) }

  /** `_is_edge`; `fold` is case folding. */
  predicate IsEdge(fold: string -> string, x: Xml) { fold(Underscored(x.tag)) in {"edge", "transition", "connection"} }

  /** A containment edge between two nodes, each named by the index of its record. */
  datatype Contains = Contains(parent: nat, child: nat)

  /** Record `i` is a node below a node. */
  predicate Contained(fold: string -> string, rs: seq<Record>, i: nat)
    requires i < |rs|
  {
    && !IsEdge(fold, rs[i].element) && rs[i].parent.Some? && rs[i].parent.value < |rs|
    && !IsEdge(fold, rs[rs[i].parent.value].element)
  }

  function NodeCount(fold: string -> string, rs: seq<Record>): nat {
    if rs == [] then 0 else NodeCount(fold, rs[..|rs| - 1]) + if IsEdge(fold, rs[|rs| - 1].element) then 0 else 1
  }

  /** Which records are nodes, and how many. */
  method NodeIndices(fold: string -> string, rs: seq<Record>) returns (nodes: set<nat>, count: nat)
    requires forall i :: 0 <= i < |rs| ==> rs[i].index == i
    ensures count == NodeCount(fold, rs)
    ensures forall n: nat :: n in nodes <==> n < |rs| && !IsEdge(fold, rs[n].element)
  {
    nodes, count := {}, 0;
    var i := 0;
    while i < |rs|
      invariant 0 <= i <= |rs| && count == NodeCount(fold, rs[..i])
      invariant forall n: nat :: n in nodes <==> n < i && !IsEdge(fold, rs[n].element)
    {
      assert rs[..i + 1][..i] == rs[..i];
      if !IsEdge(fold, rs[i].element) {
        nodes := nodes + {rs[i].index};
        count := count + 1;
      }
      i := i + 1;
    }
    assert rs[..|rs|] == rs;
  }

  lemma ParentsExist(root: Xml)
    ensures var rs := AllRecords(root);
      forall i :: 0 <= i < |rs| ==> rs[i].index == i && (rs[i].parent.Some? ==> rs[i].parent.value < |rs|)
  {
    ParentsAreTrue(root);
    hide AllRecords, IsChild;
  }

  /** The edges for the first `n` records: one for each contained node among them, in order. */
  predicate EdgesUpTo(fold: string -> string, rs: seq<Record>, edges: seq<Contains>, n: nat)
    requires n <= |rs|
  {
    && (forall a :: 0 <= a < |edges| ==> edges[a].child < n && Contained(fold, rs, edges[a].child)
                                         && rs[edges[a].child].parent == Some(edges[a].parent))
    && (forall a, b :: 0 <= a < b < |edges| ==> edges[a].child < edges[b].child)
    && (forall i :: 0 <= i < n && Contained(fold, rs, i) ==> Contains(rs[i].parent.value, i) in edges)
  }

  lemma EdgesStep(fold: string -> string, rs: seq<Record>, edges: seq<Contains>, n: nat)
    requires n < |rs| && EdgesUpTo(fold, rs, edges, n)
    ensures EdgesUpTo(fold, rs, if Contained(fold, rs, n) then edges + [Contains(rs[n].parent.value, n)] else edges, n + 1)
  {
    hide IsEdge;
    if Contained(fold, rs, n) {
      var longer := edges + [Contains(rs[n].parent.value, n)];
      assert longer[|edges|] == Contains(rs[n].parent.value, n);
      forall i | 0 <= i < n && Contained(fold, rs, i) ensures Contains(rs[i].parent.value, i) in longer {
        assert Contains(rs[i].parent.value, i) in edges;
      }
    }
  }

  /**
   The containment part of `_extract_document`: one edge for each node whose parent is a node, from that parent, in
   document order, and no other.
   */
  method ContainmentEdges(fold: string -> string, root: Xml, rs: seq<Record>) returns (r: Option<seq<Contains>>)
    requires rs == AllRecords(root)
    ensures r.Some? <==> NodeCount(fold, rs) <= MAX_NODES
    ensures r.Some? ==> EdgesUpTo(fold, rs, r.value, |rs|)
  {
    hide AllRecords, IsEdge, EdgesUpTo;
    ParentsExist(root);
    var nodes, count := NodeIndices(fold, rs);
    if count > MAX_NODES { return None; }
    var edges: seq<Contains> := [];
    NoEdges(fold, rs);
    var i := 0;
    while i < |rs|
      invariant 0 <= i <= |rs| && EdgesUpTo(fold, rs, edges, i)
    {
      EdgesStep(fold, rs, edges, i);
      if !IsEdge(fold, rs[i].element) && rs[i].parent.Some? && rs[i].parent.value in nodes {
        edges := edges + [Contains(rs[i].parent.value, rs[i].index)];
      }
      i := i + 1;
    }
    return Some(edges);
  }

  lemma NoEdges(fold: string -> string, rs: seq<Record>)
    ensures EdgesUpTo(fold, rs, [], 0)
  {
  }
}
