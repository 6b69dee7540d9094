/**
 The traversal of a topology document with an explicit stack. It is proved to give the elements in recursive
 preorder, with their true parents and with locators that no two elements share.
 */
module Topology {
  import opened Wrappers

  /** An element with its local tag. */
  datatype Xml = Element(tag: string, children: seq<Xml>)

  /** A locator is a list of steps: the tag of an element, and its number among the siblings with that tag. */
  type Steps = seq<(string, nat)>

  datatype Record = Record(element: Xml, steps: Steps, parent: Option<nat>, index: nat)

  const MAX_ELEMENTS := 350_000
  const MAX_TEXT := 8192

  // ----- preorder -----

  /** How many of the first `k` children have a tag. */
  function Count(children: seq<Xml>, k: nat, tag: string): nat
    requires k <= |children|
  {
    if k == 0 then 0 else Count(children, k - 1, tag) + if children[k - 1].tag == tag then 1 else 0
  }

  function Step(children: seq<Xml>, k: nat): (string, nat)
    requires k < |children|
  {
    (children[k].tag, Count(children, k, children[k].tag) + 1)
  }

  /** The records of an element and everything below it; `index` records come before. */
  function Preorder(x: Xml, steps: Steps, parent: Option<nat>, index: nat): (r: seq<Record>)
    ensures r != [] && r[0] == Record(x, steps, parent, index)
    decreases x, 1, 0
  {
    [Record(x, steps, parent, index)] + Below(x, steps, index, 0, index + 1)
  }

  /** The records below the children of `x` from child `k` on; `self` is the index of `x`. */
  function Below(x: Xml, steps: Steps, self: nat, k: nat, index: nat): seq<Record>
    requires k <= |x.children|
    decreases x, 0, |x.children| - k
  {
    if k == |x.children| then []
    else
      var here := Preorder(x.children[k], steps + [Step(x.children, k)], Some(self), index);
      here + Below(x, steps, self, k + 1, index + |here|)
  }

  lemma BelowUnfolds(x: Xml, steps: Steps, self: nat, k: nat, index: nat)
    requires k < |x.children|
    ensures var here := Preorder(x.children[k], steps + [Step(x.children, k)], Some(self), index);
      Below(x, steps, self, k, index) == here + Below(x, steps, self, k + 1, index + |here|)
  {
  }

  // ----- the stack -----

  datatype Pending = Pending(element: Xml, parent: Option<nat>, steps: Steps)

  /** What popping everything from the stack gives, the last entry first. */
  function Drain(pending: seq<Pending>, index: nat): seq<Record> {
    if pending == [] then []
    else
      var top := pending[|pending| - 1];
      var here := Preorder(top.element, top.steps, top.parent, index);
      here + Drain(pending[..|pending| - 1], index + |here|)
  }

  function Reversed<T>(s: seq<T>): (r: seq<T>)
    ensures |r| == |s|
  {
    if s == [] then [] else Reversed(s[1..]) + [s[0]]
  }

  /** The entries for the children of an element. */
  function Items(x: Xml, steps: Steps, self: nat): (r: seq<Pending>)
    ensures |r| == |x.children|
  {
    seq(|x.children|, k requires 0 <= k < |x.children| => Pending(x.children[k], Some(self), steps + [Step(x.children, k)]))
  }

  lemma DrainTop(front: seq<Pending>, top: Pending, index: nat)
    ensures var here := Preorder(top.element, top.steps, top.parent, index);
      Drain(front + [top], index) == here + Drain(front, index + |here|)
  {
    assert (front + [top])[..|front|] == front;
  }

  lemma ReversedFrom(items: seq<Pending>, k: nat)
    requires k < |items|
    ensures Reversed(items[k..]) == Reversed(items[k + 1..]) + [items[k]]
  {
    assert items[k..][1..] == items[k + 1..];
  }

  lemma BelowEnds(x: Xml, steps: Steps, self: nat, index: nat)
    ensures Below(x, steps, self, |x.children|, index) == [] && Reversed(Items(x, steps, self)[|x.children|..]) == []
  {
  }

  lemma ItemIs(x: Xml, steps: Steps, self: nat, k: nat)
    requires k < |x.children|
    ensures Items(x, steps, self)[k] == Pending(x.children[k], Some(self), steps + [Step(x.children, k)])
  {
  }

  /** Popping the reversed children gives what lies below them in order. */
  lemma {:induction false} DrainChildren(front: seq<Pending>, x: Xml, steps: Steps, self: nat, k: nat, index: nat)
    requires k <= |x.children|
    ensures var below := Below(x, steps, self, k, index);
      Drain(front + Reversed(Items(x, steps, self)[k..]), index) == below + Drain(front, index + |below|)
    decreases |x.children| - k
  {
    hide *;
    var items := Items(x, steps, self);
    if k == |x.children| {
      BelowEnds(x, steps, self, index);
      assert front + [] == front && [] + Drain(front, index) == Drain(front, index);
    } else {
      var top, rest := items[k], Reversed(items[k + 1..]);
      ItemIs(x, steps, self, k);
      ReversedFrom(items, k);
      assert front + (rest + [top]) == (front + rest) + [top];
      var here := Preorder(top.element, top.steps, top.parent, index);
      var lower := Below(x, steps, self, k + 1, index + |here|);
      BelowUnfolds(x, steps, self, k, index);
      DrainTop(front + rest, top, index);
      DrainChildren(front, x, steps, self, k + 1, index + |here|);
      assert here + (lower + Drain(front, index + |here| + |lower|)) == (here + lower) + Drain(front, index + |here + lower|);
    }
  }

  lemma {:induction false} CountGrows(children: seq<Xml>, j: nat, k: nat, tag: string)
    requires j <= k <= |children|
    ensures Count(children, j, tag) <= Count(children, k, tag)
    decreases k - j
  {
    if j < k { CountGrows(children, j, k - 1, tag); }
  }

  /** The inner loop, which numbers the children by tag. */
  method NumberChildren(x: Xml, steps: Steps, self: nat) returns (items: seq<Pending>)
    ensures items == Items(x, steps, self)
  {
    items := [];
    var counts: map<string, nat> := map[];
    var k := 0;
    while k < |x.children|
      invariant 0 <= k <= |x.children| && items == Items(x, steps, self)[..k]
      invariant forall tag :: (if tag in counts then counts[tag] else 0) == Count(x.children, k, tag)
    {
      var child := x.children[k];
      var before := if child.tag in counts then counts[child.tag] else 0;
      counts := counts[child.tag := before + 1];
      items := items + [Pending(child, Some(self), steps + [(child.tag, before + 1)])];
      k := k + 1;
    }
  }

  datatype Error = TooManyElements | LocatorTooLong

  /** The text of a locator, after the fixed part that names the source. */
  function Render(steps: Steps): string {
    if steps == [] then "" else Render(steps[..|steps| - 1]) + "/" + Segment(steps[|steps| - 1])
  }

  function Segment(step: (string, nat)): string { step.0 + "[" + Decimal(step.1) + "]" }

  function Decimal(n: nat): string {
    if n < 10 then [Digit(n)] else Decimal(n / 10) + [Digit(n % 10)]
  }

  function Digit(d: nat): char
    requires d < 10
  {
    "0123456789"[d]
  }

  predicate LocatorOk(base: string, steps: Steps) { |base| + |Render(steps)| <= MAX_TEXT }

  predicate AllLocatorsOk(base: string, records: seq<Record>) {
    forall i :: 0 <= i < |records| ==> LocatorOk(base, records[i].steps)
  }

  function AllRecords(root: Xml): seq<Record> { Preorder(root, [(root.tag, 1)], None, 0) }

  /** `_collect_elements`: the explicit stack gives the elements in recursive preorder, or there are too many. */
  method CollectElements(base: string, root: Xml) returns (r: Result<seq<Record>, Error>)
    ensures r.Ok? <==> |AllRecords(root)| <= MAX_ELEMENTS && AllLocatorsOk(base, AllRecords(root))
    ensures r.Ok? ==> r.value == AllRecords(root)
  {
    hide Preorder, Below, Render, Items, Reversed, Drain;
    ghost var all := AllRecords(root);
    var records: seq<Record> := [];
    var pending := [Pending(root, None, [(root.tag, 1)])];
    DrainOne(pending[0]);
    while pending != []
      invariant all == records + Drain(pending, |records|)
      invariant |records| <= MAX_ELEMENTS && AllLocatorsOk(base, records)
      decreases |all| - |records|
    {
      var top, front := pending[|pending| - 1], pending[..|pending| - 1];
      ghost var here := Preorder(top.element, top.steps, top.parent, |records|);
      assert pending == front + [top];
      DrainTop(front, top, |records|);
      var index := |records|;
      var record := Record(top.element, top.steps, top.parent, index);
      assert all[index] == record;
      if !LocatorOk(base, top.steps) { return Err(LocatorTooLong); }
      if index >= MAX_ELEMENTS { return Err(TooManyElements); }
      records := records + [record];
      var children := NumberChildren(top.element, top.steps, index);
      NextStack(front, top, index);
      pending := front + Reversed(children);
    }
    DrainNothing(|records|);
    return Ok(records);
  }

  lemma DrainNothing(index: nat)
    ensures Drain([], index) == []
  {
  }

  lemma DrainOne(p: Pending)
    ensures Drain([p], 0) == Preorder(p.element, p.steps, p.parent, 0)
  {
    DrainTop([], p, 0);
    assert [] + [p] == [p];
  }

  lemma NextStack(front: seq<Pending>, top: Pending, index: nat)
    ensures Drain(front + [top], index) ==
      [Record(top.element, top.steps, top.parent, index)] + Drain(front + Reversed(Items(top.element, top.steps, index)), index + 1)
  {
    var below := Below(top.element, top.steps, index, 0, index + 1);
    DrainTop(front, top, index);
    DrainChildren(front, top.element, top.steps, index, 0, index + 1);
    assert Items(top.element, top.steps, index)[0..] == Items(top.element, top.steps, index);
    assert Preorder(top.element, top.steps, top.parent, index) == [Record(top.element, top.steps, top.parent, index)] + below;
  }
}
