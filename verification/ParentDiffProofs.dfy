/** What an authorised patch guarantees, and inputs on which it guarantees less than its selectors say. */
module ParentDiffProofs {
  import opened Wrappers
  import opened ParentDiff

  // ----- selectors that masking does not disturb -----

  /**
   Each selector finds in the masked document what it finds in the document itself. Selectors that count siblings
   need not: masking an earlier sibling moves them on.
   */
  predicate Steady(env: Env, x: Xml, before: Xml, after: Xml, patches: seq<string>) {
    forall k :: 0 <= k < |patches| ==> SteadyAt(env, x, before, after, patches, k)
  }

  predicate SteadyAt(env: Env, x: Xml, before: Xml, after: Xml, patches: seq<string>, k: nat)
    requires k < |patches|
  {
    FoundMasked(env, x, LabelsAfter(env, x, before, after, patches, k), patches[k]) == env.select(x, patches[k])
  }

  /** The nodes that the first `k` patches select in document `x` itself. */
  function Selected(env: Env, x: Xml, before: Xml, after: Xml, patches: seq<string>, k: nat): map<Path, Label>
    requires k <= |patches|
  {
    if k == 0 then map[]
    else
      var found := env.select(x, patches[k - 1]);
      AddLabels(Selected(env, x, before, after, patches, k - 1), found, patches[k - 1],
                Fewer(Matches(env, before, after, patches[k - 1]), |found|))
  }

  lemma {:induction false} SteadyLabels(env: Env, x: Xml, before: Xml, after: Xml, patches: seq<string>, k: nat)
    requires k <= |patches| && Steady(env, x, before, after, patches)
    ensures LabelsAfter(env, x, before, after, patches, k) == Selected(env, x, before, after, patches, k)
    decreases k
  {
    hide AddLabels, Matches, FoundMasked, Masked;
    if k > 0 {
      SteadyLabels(env, x, before, after, patches, k - 1);
      assert SteadyAt(env, x, before, after, patches, k - 1);
    }
  }

  predicate BothSteady(env: Env, before: Xml, after: Xml, patches: seq<string>) {
    Steady(env, before, before, after, patches) && Steady(env, after, before, after, patches)
  }

  lemma SteadyFinds(env: Env, before: Xml, after: Xml, patches: seq<string>, k: nat)
    requires k < |patches| && BothSteady(env, before, after, patches)
    ensures FindsInBoth(env, before, after, patches, k)
  {
    assert SteadyAt(env, before, before, after, patches, k) && SteadyAt(env, after, before, after, patches, k);
    assert Matches(env, before, after, patches[k]) <= |env.select(before, patches[k])|;
    assert Matches(env, before, after, patches[k]) <= |env.select(after, patches[k])|;
    hide LabelsAfter, FoundMasked, Matches;
  }

  /** Whether the two documents agree outside the nodes that the patches select in them. */
  predicate AgreeOutsideSelected(env: Env, before: Xml, after: Xml, patches: seq<string>) {
    AgreeOutside(env, before, after, [], Selected(env, before, before, after, patches, |patches|),
                 Selected(env, after, before, after, patches, |patches|))
  }

  /** When a patch is authorised, selectors finding what they are masked to find or not. */
  predicate Authorized(env: Env, before: Xml, after: Xml, patches: seq<string>) {
    && patches != [] && AllMatch(env, before, after, patches) && SomeChanges(env, before, after, patches)
    && ResidualEqual(env, before, after, patches)
  }

  /** Everything an authorisation asks before it compares what is left. */
  predicate SelectorsHit(env: Env, before: Xml, after: Xml, patches: seq<string>) {
    patches != [] && AllMatch(env, before, after, patches) && SomeChanges(env, before, after, patches)
  }

  predicate AgreeUpToForgerySelected(env: Env, before: Xml, after: Xml, patches: seq<string>) {
    AgreeUpToForgery(env, before, after, [], Selected(env, before, before, after, patches, |patches|),
                     Selected(env, after, before, after, patches, |patches|))
  }

  /** A node is selected in one document, and the other document has an element in its place that is not. */
  predicate OneSidedSelected(env: Env, before: Xml, after: Xml, patches: seq<string>) {
    OneSided(before, after, [], Selected(env, before, before, after, patches, |patches|),
             Selected(env, after, before, after, patches, |patches|))
  }

  /** No element outside the selected nodes of a document is called like a marker. */
  predicate NoMarkerOutsideSelected(env: Env, x: Xml, before: Xml, after: Xml, patches: seq<string>) {
    NoMarkerOutside(x, [], Selected(env, x, before, after, patches, |patches|))
  }

  /**
   For any selectors: a patch is authorised exactly when every selector finds equally many nodes on both sides, some
   selected node changed, and the documents agree outside the nodes that were masked, up to forged markers.
   */
  lemma AuthorizedUpToForgery(env: Env, before: Xml, after: Xml, patches: seq<string>)
    ensures Authorized(env, before, after, patches) <==>
      && SelectorsHit(env, before, after, patches)
      && AgreeUpToForgery(env, before, after, [], LabelsAfter(env, before, before, after, patches, |patches|),
                          LabelsAfter(env, after, before, after, patches, |patches|))
  {
    ResidualMeans(env, before, after, [], LabelsAfter(env, before, before, after, patches, |patches|),
                  LabelsAfter(env, after, before, after, patches, |patches|));
    hide Canonical, Masked, AgreeUpToForgery, LabelsAfter, AllMatch, SomeChanges;
  }

  /**
   With steady selectors no index runs out, and a patch is authorised exactly when every selector finds equally
   many nodes on both sides, some selected node changed, and the documents agree outside the selected nodes, up to
   elements that forge a marker.
   */
  lemma AuthorizedMeans(env: Env, before: Xml, after: Xml, patches: seq<string>)
    requires BothSteady(env, before, after, patches)
    ensures forall k :: 0 <= k < |patches| ==> FindsInBoth(env, before, after, patches, k)
    ensures Authorized(env, before, after, patches) <==>
      SelectorsHit(env, before, after, patches) && AgreeUpToForgerySelected(env, before, after, patches)
  {
    forall k | 0 <= k < |patches| ensures FindsInBoth(env, before, after, patches, k) {
      SteadyFinds(env, before, after, patches, k);
    }
    SteadyLabels(env, before, before, after, patches, |patches|);
    SteadyLabels(env, after, before, after, patches, |patches|);
    ResidualMeans(env, before, after, [], Selected(env, before, before, after, patches, |patches|),
                  Selected(env, after, before, after, patches, |patches|));
    hide Canonical, Masked, AgreeUpToForgery, Selected, LabelsAfter, AllMatch, SomeChanges, FindsInBoth;
  }

  /**
   Authorised changes stay inside the selected nodes exactly where no selected node is one-sided, and so wherever
   no element outside the selected nodes is called like a marker.
   */
  lemma AuthorizedStaysInside(env: Env, before: Xml, after: Xml, patches: seq<string>)
    requires BothSteady(env, before, after, patches)
    ensures Authorized(env, before, after, patches) && !OneSidedSelected(env, before, after, patches) <==>
      SelectorsHit(env, before, after, patches) && AgreeOutsideSelected(env, before, after, patches)
    ensures NoMarkerOutsideSelected(env, before, before, after, patches) && NoMarkerOutsideSelected(env, after, before, after, patches)
      ==> (Authorized(env, before, after, patches) <==>
           SelectorsHit(env, before, after, patches) && AgreeOutsideSelected(env, before, after, patches))
  {
    var la := Selected(env, before, before, after, patches, |patches|);
    var lb := Selected(env, after, before, after, patches, |patches|);
    AuthorizedMeans(env, before, after, patches);
    ForgeryIsOneSided(env, before, after, [], la, lb);
    hide Selected, AgreeOutside, AgreeUpToForgery, OneSided, NoMarkerOutside, SelectorsHit, Authorized;
    if NoMarkerOutside(before, [], la) && NoMarkerOutside(after, [], lb) && AgreeUpToForgery(env, before, after, [], la, lb) {
      NoMarkerNoForgery(env, before, after, [], la, lb);
    }
  }

  predicate Clear(p: Path, here: Path, la: map<Path, Label>, lb: map<Path, Label>) {
    forall n :: 0 <= n <= |p| ==> here + p[..n] !in la && here + p[..n] !in lb
  }

  /** Agreement, read at one element: unless it lies at or below a labelled node, the other document has it too. */
  lemma {:induction false} AgreesAt(env: Env, a: Xml, b: Xml, here: Path, la: map<Path, Label>, lb: map<Path, Label>, p: Path)
    requires AgreeOutside(env, a, b, here, la, lb) && Get(a, p).Some? && Clear(p, here, la, lb)
    ensures Get(b, p).Some? && SameElement(env, Get(a, p).value, Get(b, p).value)
    ensures p != [] ==> env.strip(Get(a, p).value.tail) == env.strip(Get(b, p).value.tail)
    decreases |p|
  {
    assert here + p[..0] == here;
    if p != [] {
      ClearBelow(p, here, la, lb);
      AgreesAt(env, a.children[p[0]], b.children[p[0]], here + [p[0]], la, lb, p[1..]);
    }
  }

  lemma ClearBelow(p: Path, here: Path, la: map<Path, Label>, lb: map<Path, Label>)
    requires Clear(p, here, la, lb) && p != []
    ensures Clear(p[1..], here + [p[0]], la, lb)
  {
    forall n | 0 <= n <= |p[1..]|
      ensures here + [p[0]] + p[1..][..n] !in la && here + [p[0]] + p[1..][..n] !in lb
    {
      assert here + [p[0]] + p[1..][..n] == here + p[..n + 1];
    }
  }

  // ----- selectors that count siblings -----

  function TaggedChildren(x: Xml, tag: string, n: nat): seq<Path>
    requires n <= |x.children|
  {
    if n == 0 then [] else TaggedChildren(x, tag, n - 1) + if x.children[n - 1].tag == tag then [[n - 1]] else []
  }

  /** The selectors `a[1]` and `a[2]`: the first and the second child called a. */
  function Counting(x: Xml, s: string): seq<Path> {
    var found := TaggedChildren(x, "a", |x.children|);
    if s == "a[1]" && |found| > 0 then [found[0]] else if s == "a[2]" && |found| > 1 then [found[1]] else []
  }

  function Leaf(text: string): Xml { Element("a", map[], text, [], "") }

  function Root(children: seq<Xml>): Xml { Element("root", map[], "", children, "") }

  lemma TaggedOfThree(x: Xml)
    requires |x.children| == 3
    ensures TaggedChildren(x, "a", 3) ==
      (if x.children[0].tag == "a" then [[0]] else []) + (if x.children[1].tag == "a" then [[1]] else [])
      + (if x.children[2].tag == "a" then [[2]] else [])
  {
    assert TaggedChildren(x, "a", 0) == [];
    assert TaggedChildren(x, "a", 1) == if x.children[0].tag == "a" then [[0]] else [];
    assert TaggedChildren(x, "a", 2) == TaggedChildren(x, "a", 1) + if x.children[1].tag == "a" then [[1]] else [];
  }

  function CountingEnv(): Env {
    Env(s => s, n => if n == 0 then "0" else "1", s => true, Counting)
  }

  function Row(a: string, b: string, c: string): Xml { Root([Leaf(a), Leaf(b), Leaf(c)]) }

  const BEFORE := Row("1", "2", "3")
  const AFTER := Row("x", "2", "y")
  const FIRST_TWO := ["a[1]", "a[2]"]

  function MaskedLeaf(labels: map<Path, Label>, i: nat, text: string): Xml {
    if [i] in labels then Marker(CountingEnv(), labels[[i]], "") else Leaf(text)
  }

  lemma MaskedRow(a: string, b: string, c: string, labels: map<Path, Label>)
    requires [] !in labels
    ensures Masked(CountingEnv(), Row(a, b, c), [], labels) ==
      Root([MaskedLeaf(labels, 0, a), MaskedLeaf(labels, 1, b), MaskedLeaf(labels, 2, c)])
  {
    assert [] + [0] == [0] && [] + [1] == [1] && [] + [2] == [2];
    LeafMasked(labels, 0, a);
    LeafMasked(labels, 1, b);
    LeafMasked(labels, 2, c);
    hide MaskedLeaf;
  }

  lemma LeafMasked(labels: map<Path, Label>, i: nat, text: string)
    ensures Masked(CountingEnv(), Leaf(text), [i], labels) == MaskedLeaf(labels, i, text)
  {
  }

  lemma CountingSelects(a: string, b: string, c: string)
    ensures Counting(Row(a, b, c), "a[1]") == [[0]] && Counting(Row(a, b, c), "a[2]") == [[1]]
  {
    TaggedOfThree(Row(a, b, c));
  }

  /** With the first child masked, the second child called a is the third child. */
  lemma CountingMovesOn(a: string, b: string, c: string)
    ensures FoundMasked(CountingEnv(), Row(a, b, c), map[[0] := Label("a[1]", 0)], "a[2]") == [[2]]
    ensures FoundMasked(CountingEnv(), Row(a, b, c), map[], "a[1]") == [[0]]
  {
    var labels := map[[0] := Label("a[1]", 0)];
    MaskedRow(a, b, c, labels);
    TaggedOfThree(Masked(CountingEnv(), Row(a, b, c), [], labels));
    NothingMasked(CountingEnv(), Row(a, b, c), []);
    CountingSelects(a, b, c);
    hide Masked, TaggedChildren;
  }

  lemma AddFirst(labels: map<Path, Label>, p: Path, s: string)
    ensures AddLabels(labels, [p], s, 1) == labels[p := Label(s, 0)]
  {
    assert AddLabels(labels, [p], s, 0) == labels;
  }

  lemma CountingMatches()
    ensures Matches(CountingEnv(), BEFORE, AFTER, "a[1]") == 1 && Matches(CountingEnv(), BEFORE, AFTER, "a[2]") == 1
  {
    CountingSelects("1", "2", "3");
    CountingSelects("x", "2", "y");
    hide Counting;
  }

  /** After both patches the first and the third child are masked, while the first and the second are selected. */
  lemma CountingMasks(a: string, b: string, c: string)
    ensures LabelsAfter(CountingEnv(), Row(a, b, c), BEFORE, AFTER, FIRST_TWO, 2) == map[[0] := Label("a[1]", 0), [2] := Label("a[2]", 0)]
    ensures Selected(CountingEnv(), Row(a, b, c), BEFORE, AFTER, FIRST_TWO, 2) == map[[0] := Label("a[1]", 0), [1] := Label("a[2]", 0)]
  {
    var env, x, first := CountingEnv(), Row(a, b, c), map[[0] := Label("a[1]", 0)];
    CountingMatches();
    CountingMovesOn(a, b, c);
    CountingSelects(a, b, c);
    AddFirst(map[], [0], "a[1]");
    AddFirst(first, [2], "a[2]");
    AddFirst(first, [1], "a[2]");
    hide FoundMasked, Counting, AddLabels, Matches;
    assert LabelsAfter(env, x, BEFORE, AFTER, FIRST_TWO, 0) == map[] && Selected(env, x, BEFORE, AFTER, FIRST_TWO, 0) == map[];
    assert LabelsAfter(env, x, BEFORE, AFTER, FIRST_TWO, 1) == first;
    assert Selected(env, x, BEFORE, AFTER, FIRST_TWO, 1) == first;
  }

  /** So patches of the first and the second child authorise a change to the third. */
  lemma CountingSelectorsAuthorizeTooMuch()
    ensures Authorized(CountingEnv(), BEFORE, AFTER, FIRST_TWO)
    ensures !AgreeOutsideSelected(CountingEnv(), BEFORE, AFTER, FIRST_TWO)
  {
    CountingAuthorizes();
    CountingDisagrees();
    hide *;
  }

  lemma CountingAuthorizes()
    ensures Authorized(CountingEnv(), BEFORE, AFTER, FIRST_TWO)
  {
    hide Canonical, LabelsAfter, Changes, Matches, Counting, ResidualEqual, Masked;
    CountingMatches();
    CountingChanges();
    CountingResidual();
    assert Changes(CountingEnv(), BEFORE, AFTER, FIRST_TWO[0]);
  }

  lemma CountingResidual()
    ensures ResidualEqual(CountingEnv(), BEFORE, AFTER, FIRST_TWO)
  {
    hide Masked, Canonical, LabelsAfter, Selected;
    var labels := map[[0] := Label("a[1]", 0), [2] := Label("a[2]", 0)];
    CountingMasks("1", "2", "3");
    CountingMasks("x", "2", "y");
    MaskedRow("1", "2", "3", labels);
    MaskedRow("x", "2", "y", labels);
  }

  lemma CountingChanges()
    ensures Changes(CountingEnv(), BEFORE, AFTER, "a[1]")
  {
    CountingMatches();
    CountingSelects("1", "2", "3");
    CountingSelects("x", "2", "y");
    assert Get(BEFORE, [0]) == Some(Leaf("1")) && Get(AFTER, [0]) == Some(Leaf("x"));
    hide Matches, Counting;
    assert ChangedAt(CountingEnv(), BEFORE, AFTER, "a[1]", 0);
  }

  lemma CountingDisagrees()
    ensures !AgreeOutsideSelected(CountingEnv(), BEFORE, AFTER, FIRST_TWO)
  {
    hide LabelsAfter, AgreeOutside, Selected;
    var selected := map[[0] := Label("a[1]", 0), [1] := Label("a[2]", 0)];
    CountingMasks("1", "2", "3");
    CountingMasks("x", "2", "y");
    ThirdDiffers(selected);
  }

  lemma ThirdDiffers(selected: map<Path, Label>)
    requires [] !in selected && [2] !in selected
    ensures !AgreeOutside(CountingEnv(), BEFORE, AFTER, [], selected, selected)
  {
    assert [] + [2] == [2];
    assert BEFORE.children[2] == Leaf("3") && AFTER.children[2] == Leaf("y");
    assert !AgreeOutside(CountingEnv(), Leaf("3"), Leaf("y"), [2], selected, selected);
  }

  // ----- forged markers, and a selector given twice -----

  /** The selector `.//a`: every descendant with a tag, in document order, from child `k` of the element on. */
  function Descendants(x: Xml, tag: string, here: Path, k: nat): seq<Path>
    requires k <= |x.children|
    decreases x, |x.children| - k
  {
    if k == |x.children| then []
    else
      (if x.children[k].tag == tag then [here + [k]] else []) + Descendants(x.children[k], tag, here + [k], 0)
      + Descendants(x, tag, here, k + 1)
  }

  function DescendantEnv(): Env {
    Env(s => s, n => if n == 0 then "0" else "1", s => true, (x, s) => Descendants(x, "a", [], 0))
  }

  const ANY := ".//a"
  const FORGED := Element(MARKER, map["selector" := ANY, "index" := "1"], "", [], "")
  const TWO := Root([Leaf("1"), Leaf("2")])
  const NESTED := Root([Element("a", map[], "x", [Leaf("y")], ""), FORGED])

  lemma DescendantsOfLeaf(text: string, here: Path)
    ensures Descendants(Leaf(text), "a", here, 0) == []
  {
  }

  lemma DescendantsOfTwo(x: Xml, y: Xml, here: Path)
    ensures Descendants(Root([x, y]), "a", here, 0) ==
      ((if x.tag == "a" then [here + [0]] else []) + Descendants(x, "a", here + [0], 0))
      + ((if y.tag == "a" then [here + [1]] else []) + Descendants(y, "a", here + [1], 0))
  {
    var r := Root([x, y]);
    DescendantsStep(r, here, 0);
    DescendantsStep(r, here, 1);
    DescendantsEnd(r, here);
    hide Descendants;
    var below := (if y.tag == "a" then [here + [1]] else []) + Descendants(y, "a", here + [1], 0);
    assert below + [] == below;
  }

  lemma DescendantsStep(r: Xml, here: Path, k: nat)
    requires k < |r.children|
    ensures Descendants(r, "a", here, k) ==
      (if r.children[k].tag == "a" then [here + [k]] else []) + Descendants(r.children[k], "a", here + [k], 0)
      + Descendants(r, "a", here, k + 1)
  {
  }

  lemma DescendantsEnd(r: Xml, here: Path)
    ensures Descendants(r, "a", here, |r.children|) == []
  {
  }

  lemma DescendantsOfOne(x: Xml, here: Path)
    ensures Descendants(Root([x]), "a", here, 0) == (if x.tag == "a" then [here + [0]] else []) + Descendants(x, "a", here + [0], 0)
  {
    assert Descendants(Root([x]), "a", here, 1) == [];
  }

  /** Before, the selector finds both children; after, the first child and the element inside it. */
  lemma DescendantsFound()
    ensures DescendantEnv().select(TWO, ANY) == [[0], [1]] && DescendantEnv().select(NESTED, ANY) == [[0], [0, 0]]
  {
    DescendantsOfLeaf("1", [0]);
    DescendantsOfLeaf("2", [1]);
    DescendantsOfTwo(Leaf("1"), Leaf("2"), []);
    var outer := Element("a", map[], "x", [Leaf("y")], "");
    DescendantsOfLeaf("y", [0, 0]);
    assert Descendants(outer, "a", [0], 1) == [];
    assert [0] + [0] == [0, 0];
    assert Descendants(outer, "a", [0], 0) == [[0, 0]];
    assert Descendants(FORGED, "a", [1], 0) == [];
    DescendantsOfTwo(outer, FORGED, []);
    assert [] + [0] == [0] && [] + [1] == [1];
  }

  lemma OnePatchIsSteady(env: Env, x: Xml, before: Xml, after: Xml, s: string)
    ensures Steady(env, x, before, after, [s])
  {
    NothingMasked(env, x, []);
    assert SteadyAt(env, x, before, after, [s], 0);
  }

  lemma AddTwo(p: Path, q: Path, s: string)
    requires p != q
    ensures AddLabels(map[], [p, q], s, 2) == map[p := Label(s, 0)][q := Label(s, 1)]
  {
    assert AddLabels(map[], [p, q], s, 0) == map[];
    assert AddLabels(map[], [p, q], s, 1) == map[p := Label(s, 0)];
  }

  lemma DescendantsSelected()
    ensures Matches(DescendantEnv(), TWO, NESTED, ANY) == 2
    ensures Selected(DescendantEnv(), TWO, TWO, NESTED, [ANY], 1) == map[[0] := Label(ANY, 0), [1] := Label(ANY, 1)]
    ensures Selected(DescendantEnv(), NESTED, TWO, NESTED, [ANY], 1) == map[[0] := Label(ANY, 0), [0, 0] := Label(ANY, 1)]
  {
    DescendantsFound();
    AddTwo([0], [1], ANY);
    AddTwo([0], [0, 0], ANY);
    hide Descendants, AddLabels;
    assert Selected(DescendantEnv(), TWO, TWO, NESTED, [ANY], 0) == map[];
    assert Selected(DescendantEnv(), NESTED, TWO, NESTED, [ANY], 0) == map[];
  }

  /** The forged marker stands where the second selected node was. */
  lemma ForgedAgrees()
    ensures AgreeUpToForgerySelected(DescendantEnv(), TWO, NESTED, [ANY])
    ensures OneSidedSelected(DescendantEnv(), TWO, NESTED, [ANY])
  {
    var env := DescendantEnv();
    var la, lb := map[[0] := Label(ANY, 0), [1] := Label(ANY, 1)], map[[0] := Label(ANY, 0), [0, 0] := Label(ANY, 1)];
    DescendantsSelected();
    hide Selected, Descendants;
    assert [] + [0] == [0] && [] + [1] == [1];
    assert Forges(env, FORGED, Label(ANY, 1));
    hide Forges;
    assert AgreeUpToForgery(env, TWO.children[0], NESTED.children[0], [0], la, lb);
    assert AgreeUpToForgery(env, TWO.children[1], NESTED.children[1], [1], la, lb);
    assert OneSided(TWO.children[1], NESTED.children[1], [1], la, lb);
  }

  lemma ForgedHits()
    ensures SelectorsHit(DescendantEnv(), TWO, NESTED, [ANY])
  {
    DescendantsSelected();
    DescendantsFound();
    assert Get(TWO, [0]) == Some(Leaf("1")) && Get(NESTED, [0]) == Some(NESTED.children[0]);
    hide Selected, Descendants, Matches;
    assert Canonical(DescendantEnv(), Leaf("1")).text != Canonical(DescendantEnv(), NESTED.children[0]).text;
    assert ChangedAt(DescendantEnv(), TWO, NESTED, ANY, 0);
    assert Changes(DescendantEnv(), TWO, NESTED, [ANY][0]);
  }

  /** A single steady patch authorises a document in which an unselected element has been put in. */
  lemma ForgedMarkerIsAuthorized()
    ensures BothSteady(DescendantEnv(), TWO, NESTED, [ANY]) && Authorized(DescendantEnv(), TWO, NESTED, [ANY])
    ensures !AgreeOutsideSelected(DescendantEnv(), TWO, NESTED, [ANY])
  {
    OnePatchIsSteady(DescendantEnv(), TWO, TWO, NESTED, ANY);
    OnePatchIsSteady(DescendantEnv(), NESTED, TWO, NESTED, ANY);
    ForgedAgrees();
    ForgedHits();
    AuthorizedStaysInside(DescendantEnv(), TWO, NESTED, [ANY]);
    AuthorizedMeans(DescendantEnv(), TWO, NESTED, [ANY]);
    hide *;
  }

  /** The same selector given twice finds nothing to mask the second time, and the comparison fails. */
  lemma SelectorTwiceFails()
    ensures !FindsInBoth(DescendantEnv(), Root([Leaf("1")]), Root([Leaf("2")]), [ANY, ANY], 1)
  {
    var env, before, after := DescendantEnv(), Root([Leaf("1")]), Root([Leaf("2")]);
    DescendantsOfLeaf("1", [0]);
    DescendantsOfLeaf("2", [0]);
    DescendantsOfOne(Leaf("1"), []);
    DescendantsOfOne(Leaf("2"), []);
    assert [] + [0] == [0];
    assert Matches(env, before, after, ANY) == 1;
    NothingMasked(env, before, []);
    AddFirst(map[], [0], ANY);
    var labels := map[[0] := Label(ANY, 0)];
    assert LabelsAfter(env, before, before, after, [ANY, ANY], 0) == map[];
    assert FoundMasked(env, before, map[], ANY) == [[0]];
    assert LabelsAfter(env, before, before, after, [ANY, ANY], 1) == labels;
    var m := Marker(env, Label(ANY, 0), "");
    assert Masked(env, before, [], labels) == Root([m]);
    assert Descendants(m, "a", [0], 0) == [];
    DescendantsOfOne(m, []);
    assert FoundMasked(env, before, labels, ANY) == [];
  }
}
