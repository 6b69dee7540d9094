/**
 The authorisation of XML edits by masking: both documents are masked at the selected nodes, and what is left must
 be the same.
 */
module ParentDiff {
  import opened Wrappers

  /** An element, with the text before its first child and the text after itself. */
  datatype Xml = Element(tag: string, attributes: map<string, string>, text: string, children: seq<Xml>, tail: string)

  /** The way to an element: child indices from the root. */
  type Path = seq<nat>

  /** Which patch masked a node: its selector, and the node's number among those selected. */
  datatype Label = Label(selector: string, index: nat)

  const MARKER := "__declared_patch__"

  /**
   Stripping of white space, decimal notation, and `findall`: whether a selector is well-formed, and the elements
   it selects in a tree.
   */
  datatype Env = Env(
    strip: string -> string, digits: nat -> string, parses: string -> bool, select: (Xml, string) -> seq<Path>)

  function Get(x: Xml, p: Path): Option<Xml> {
    if p == [] then Some(x) else if p[0] < |x.children| then Get(x.children[p[0]], p[1..]) else None
  }

  // ----- canonical form -----

  /** `_canonical_xml`; each child comes with its own stripped tail. */
  datatype Canon = Canon(tag: string, attributes: map<string, string>, text: string, children: seq<(Canon, string)>)

  function Canonical(env: Env, x: Xml): Canon {
    Canon(x.tag, x.attributes, env.strip(x.text),
          seq(|x.children|, i requires 0 <= i < |x.children| => (Canonical(env, x.children[i]), env.strip(x.children[i].tail))))
  }

  function CanonicalAt(env: Env, x: Xml, p: Path): Option<Canon> {
    if Get(x, p).Some? then Some(Canonical(env, Get(x, p).value)) else None
  }

  // ----- masking -----

  /** The marker keeps the tail of what it stands for. (The tail of a root is never compared.) */
  function Marker(env: Env, mark: Label, tail: string): Xml {
    Element(MARKER, map["selector" := mark.selector, "index" := env.digits(mark.index)], "", [], tail)
  }

  /** `_mask_node`: nothing happens to a node that is no longer in the tree. */
  function MaskAt(env: Env, x: Xml, p: Path, mark: Label): Xml {
    if p == [] then Marker(env, mark, x.tail)
    else if p[0] < |x.children| then
      x.(children := x.children[p[0] := MaskAt(env, x.children[p[0]], p[1..], mark)])
    else x
  }

  /** The tree with every labelled node masked, the outermost where labels are nested. */
  function Masked(env: Env, x: Xml, here: Path, labels: map<Path, Label>): Xml {
    if here in labels then Marker(env, labels[here], x.tail)
    else x.(children :=
      seq(|x.children|, i requires 0 <= i < |x.children| => Masked(env, x.children[i], here + [i], labels)))
  }

  predicate Extends(p: Path, q: Path) { |q| <= |p| && p[..|q|] == q }

  lemma ExtendsShorter(p: Path, q: Path, i: nat)
    ensures Extends(p, q + [i]) ==> Extends(p, q)
  {
    assert Extends(p, q + [i]) ==> p[..|q|] == (q + [i])[..|q|];
  }

  lemma {:induction false} MaskedElsewhere(env: Env, x: Xml, here: Path, labels: map<Path, Label>, p: Path, mark: Label)
    requires !Extends(p, here)
    ensures Masked(env, x, here, labels[p := mark]) == Masked(env, x, here, labels)
    decreases x
  {
    forall i | 0 <= i < |x.children|
      ensures Masked(env, x.children[i], here + [i], labels[p := mark]) == Masked(env, x.children[i], here + [i], labels)
    {
      ExtendsShorter(p, here, i);
      MaskedElsewhere(env, x.children[i], here + [i], labels, p, mark);
    }
  }

  /** Masking one node more is adding its label. */
  lemma {:induction false} MaskOneMore(env: Env, x: Xml, here: Path, labels: map<Path, Label>, p: Path, mark: Label)
    ensures MaskAt(env, Masked(env, x, here, labels), p, mark) == Masked(env, x, here, labels[here + p := mark])
    decreases x
  {
    if p == [] {
      assert here + p == here;
    } else if here !in labels {
      var next := labels[here + p := mark];
      assert here + p != here;
      forall i | 0 <= i < |x.children| && i != p[0]
        ensures Masked(env, x.children[i], here + [i], next) == Masked(env, x.children[i], here + [i], labels)
      {
        assert (here + p)[|here|] == p[0];
        MaskedElsewhere(env, x.children[i], here + [i], labels, here + p, mark);
      }
      if p[0] < |x.children| {
        assert here + p == here + [p[0]] + p[1..];
        MaskOneMore(env, x.children[p[0]], here + [p[0]], labels, p[1..], mark);
      }
    } else {
      assert here + p != here;
    }
  }

  // ----- agreement outside the masks -----

  /** The element itself, apart from its children and its tail. */
  predicate SameElement(env: Env, a: Xml, b: Xml) {
    a.tag == b.tag && a.attributes == b.attributes && env.strip(a.text) == env.strip(b.text) && |a.children| == |b.children|
  }

  predicate SameLabel(env: Env, a: Label, b: Label) { a.selector == b.selector && env.digits(a.index) == env.digits(b.index) }

  /**
   Two documents agree outside the labelled nodes: those are the same nodes under the same labels, every other
   element above or beside them is the same, and so is the text after each element, labelled or not.
   */
  predicate AgreeOutside(env: Env, a: Xml, b: Xml, here: Path, la: map<Path, Label>, lb: map<Path, Label>)
    decreases a
  {
    if here in la || here in lb then here in la && here in lb && SameLabel(env, la[here], lb[here])
    else
      SameElement(env, a, b)
      && forall i :: 0 <= i < |a.children| ==>
        env.strip(a.children[i].tail) == env.strip(b.children[i].tail)
        && AgreeOutside(env, a.children[i], b.children[i], here + [i], la, lb)
  }

  /** An element of a document that looks like the marker of a label. */
  predicate Forges(env: Env, x: Xml, mark: Label) { Canonical(env, x) == Canonical(env, Marker(env, mark, "")) }

  /** The same, except that a labelled node may face an element that forges its marker. */
  predicate AgreeUpToForgery(env: Env, a: Xml, b: Xml, here: Path, la: map<Path, Label>, lb: map<Path, Label>)
    decreases a
  {
    if here in la && here in lb then SameLabel(env, la[here], lb[here])
    else if here in la then Forges(env, b, la[here])
    else if here in lb then Forges(env, a, lb[here])
    else
      SameElement(env, a, b)
      && forall i :: 0 <= i < |a.children| ==>
        env.strip(a.children[i].tail) == env.strip(b.children[i].tail)
        && AgreeUpToForgery(env, a.children[i], b.children[i], here + [i], la, lb)
  }

  /** Some node that masking reaches is labelled in one of the documents only. */
  predicate OneSided(a: Xml, b: Xml, here: Path, la: map<Path, Label>, lb: map<Path, Label>)
    decreases a
  {
    if here in la || here in lb then !(here in la && here in lb)
    else |a.children| == |b.children| && exists i :: 0 <= i < |a.children| && OneSided(a.children[i], b.children[i], here + [i], la, lb)
  }

  /** No element outside the labelled nodes is itself called like a marker. */
  predicate NoMarkerOutside(x: Xml, here: Path, labels: map<Path, Label>) {
    here in labels
    || (x.tag != MARKER && forall i :: 0 <= i < |x.children| ==> NoMarkerOutside(x.children[i], here + [i], labels))
  }

  lemma MarkersEqual(env: Env, a: Label, b: Label, s: string, t: string)
    ensures Canonical(env, Marker(env, a, s)) == Canonical(env, Marker(env, b, t)) <==> SameLabel(env, a, b)
  {
    var m, n := Canonical(env, Marker(env, a, s)), Canonical(env, Marker(env, b, t));
    assert m.attributes["selector"] == a.selector && m.attributes["index"] == env.digits(a.index);
    assert n.attributes["selector"] == b.selector && n.attributes["index"] == env.digits(b.index);
  }

  /** An unlabelled element with masked children looks like a marker only if it has no children to mask. */
  lemma ForgedWhole(env: Env, x: Xml, here: Path, labels: map<Path, Label>, mark: Label, tail: string)
    requires here !in labels
    ensures Canonical(env, Masked(env, x, here, labels)) == Canonical(env, Marker(env, mark, tail)) <==> Forges(env, x, mark)
  {
    var m := Masked(env, x, here, labels);
    assert |Canonical(env, m).children| == |m.children| == |x.children| == |Canonical(env, x).children|;
    assert |Canonical(env, Marker(env, mark, tail)).children| == 0;
    if x.children == [] { assert m == x; }
  }

  /** Comparing what is left of two masked documents is comparing them outside the masks, up to forgery. */
  lemma {:induction false} ResidualMeans(env: Env, a: Xml, b: Xml, here: Path, la: map<Path, Label>, lb: map<Path, Label>)
    ensures Canonical(env, Masked(env, a, here, la)) == Canonical(env, Masked(env, b, here, lb)) <==>
      AgreeUpToForgery(env, a, b, here, la, lb)
    decreases a
  {
    if here in la && here in lb {
      MarkersEqual(env, la[here], lb[here], a.tail, b.tail);
    } else if here in la {
      ForgedWhole(env, b, here, lb, la[here], a.tail);
    } else if here in lb {
      ForgedWhole(env, a, here, la, lb[here], b.tail);
    } else {
      ResidualBelow(env, a, b, here, la, lb);
    }
  }

  lemma {:induction false} ResidualBelow(env: Env, a: Xml, b: Xml, here: Path, la: map<Path, Label>, lb: map<Path, Label>)
    requires here !in la && here !in lb
    ensures Canonical(env, Masked(env, a, here, la)) == Canonical(env, Masked(env, b, here, lb)) <==>
      AgreeUpToForgery(env, a, b, here, la, lb)
    decreases a, 0
  {
    var ca, cb := Canonical(env, Masked(env, a, here, la)).children, Canonical(env, Masked(env, b, here, lb)).children;
    hide Forges, Marker;
    forall i | 0 <= i < |a.children| && |a.children| == |b.children|
      ensures ca[i] == cb[i] <==> (
        && env.strip(a.children[i].tail) == env.strip(b.children[i].tail)
        && AgreeUpToForgery(env, a.children[i], b.children[i], here + [i], la, lb))
    {
      ResidualMeans(env, a.children[i], b.children[i], here + [i], la, lb);
      TailKept(env, a.children[i], here + [i], la);
      TailKept(env, b.children[i], here + [i], lb);
    }
  }

  lemma TailKept(env: Env, x: Xml, here: Path, labels: map<Path, Label>)
    ensures Masked(env, x, here, labels).tail == x.tail
  {
  }

  /** Forgery is the only gap: documents agree outside the labels exactly if they do up to forgery and no label is one-sided. */
  lemma {:induction false} ForgeryIsOneSided(env: Env, a: Xml, b: Xml, here: Path, la: map<Path, Label>, lb: map<Path, Label>)
    ensures AgreeOutside(env, a, b, here, la, lb) <==> AgreeUpToForgery(env, a, b, here, la, lb) && !OneSided(a, b, here, la, lb)
    decreases a
  {
    hide Forges, SameLabel;
    if here !in la && here !in lb && |a.children| == |b.children| {
      forall i | 0 <= i < |a.children|
        ensures AgreeOutside(env, a.children[i], b.children[i], here + [i], la, lb) <==>
          AgreeUpToForgery(env, a.children[i], b.children[i], here + [i], la, lb)
          && !OneSided(a.children[i], b.children[i], here + [i], la, lb)
      {
        ForgeryIsOneSided(env, a.children[i], b.children[i], here + [i], la, lb);
      }
    }
  }

  /** Without elements called like a marker outside the labels there is no forgery. */
  lemma {:induction false} NoMarkerNoForgery(env: Env, a: Xml, b: Xml, here: Path, la: map<Path, Label>, lb: map<Path, Label>)
    requires NoMarkerOutside(a, here, la) && NoMarkerOutside(b, here, lb) && AgreeUpToForgery(env, a, b, here, la, lb)
    ensures !OneSided(a, b, here, la, lb)
    decreases a
  {
    if here !in la && here !in lb {
      forall i | 0 <= i < |a.children| ensures !OneSided(a.children[i], b.children[i], here + [i], la, lb) {
        NoMarkerNoForgery(env, a.children[i], b.children[i], here + [i], la, lb);
      }
    } else if here in la && here !in lb {
      ForgerHasMarkerTag(env, b, la[here]);
    } else if here in lb && here !in la {
      ForgerHasMarkerTag(env, a, lb[here]);
    }
  }

  lemma ForgerHasMarkerTag(env: Env, x: Xml, mark: Label)
    ensures Forges(env, x, mark) ==> x.tag == MARKER
  {
  }

  // ----- the patches of one member -----

  /** How many nodes a patch compares: none, unless its selector is well-formed and finds as many in both documents. */
  function Matches(env: Env, before: Xml, after: Xml, s: string): nat {
    if env.parses(s) && |env.select(before, s)| == |env.select(after, s)| then |env.select(before, s)| else 0
  }

  /**
   A selector may give an element more than once. The second time it is no longer in the tree, except that the root
   is masked in place, and then again.
   */
  predicate Repeated(found: seq<Path>, i: nat)
    requires i < |found|
  {
    found[i] in found[..i] && found[i] != []
  }

  /** Labels for the first `n` of the nodes found by a selector. */
  function AddLabels(labels: map<Path, Label>, found: seq<Path>, s: string, n: nat): map<Path, Label>
    requires n <= |found|
  {
    if n == 0 then labels
    else if Repeated(found, n - 1) then AddLabels(labels, found, s, n - 1)
    else AddLabels(labels, found, s, n - 1)[found[n - 1] := Label(s, n - 1)]
  }

  /** However often a selector gives an element below the root, its label has the number of the first time. */
  lemma {:induction false} LabelIsFirst(labels: map<Path, Label>, found: seq<Path>, s: string, n: nat, i: nat)
    requires i < n <= |found| && found[i] != [] && found[i] !in found[..i]
    ensures found[i] in AddLabels(labels, found, s, n) && AddLabels(labels, found, s, n)[found[i]] == Label(s, i)
    decreases n
  {
    if i < n - 1 {
      LabelIsFirst(labels, found, s, n - 1, i);
      assert found[n - 1] == found[i] ==> found[i] in found[..n - 1];
    }
  }

  /** The first `n` nodes found in document `x`, where earlier patches have masked what they labelled. */
  function FoundMasked(env: Env, x: Xml, labels: map<Path, Label>, s: string): seq<Path> {
    env.select(Masked(env, x, [], labels), s)
  }

  function Fewer(a: nat, b: nat): nat { if a < b then a else b }

  /** What the first `k` patches mask in `x`, one of the two documents. */
  function LabelsAfter(env: Env, x: Xml, before: Xml, after: Xml, patches: seq<string>, k: nat): map<Path, Label>
    requires k <= |patches|
  {
    if k == 0 then map[]
    else
      var labels := LabelsAfter(env, x, before, after, patches, k - 1);
      var found := FoundMasked(env, x, labels, patches[k - 1]);
      AddLabels(labels, found, patches[k - 1], Fewer(Matches(env, before, after, patches[k - 1]), |found|))
  }

  /** The masked document still has as many nodes for patch `k` as the document itself. */
  predicate Finds(env: Env, x: Xml, before: Xml, after: Xml, patches: seq<string>, k: nat)
    requires k < |patches|
  {
    Matches(env, before, after, patches[k]) <= |FoundMasked(env, x, LabelsAfter(env, x, before, after, patches, k), patches[k])|
  }

  predicate FindsInBoth(env: Env, before: Xml, after: Xml, patches: seq<string>, k: nat)
    requires k < |patches|
  {
    Finds(env, before, before, after, patches, k) && Finds(env, after, before, after, patches, k)
  }

  predicate ChangedAt(env: Env, before: Xml, after: Xml, s: string, i: nat)
    requires i < Matches(env, before, after, s)
  {
    CanonicalAt(env, before, env.select(before, s)[i]) != CanonicalAt(env, after, env.select(after, s)[i])
  }

  predicate ChangesWithin(env: Env, before: Xml, after: Xml, s: string, n: nat)
    requires n <= Matches(env, before, after, s)
  {
    exists i :: 0 <= i < n && ChangedAt(env, before, after, s, i)
  }

  predicate Changes(env: Env, before: Xml, after: Xml, s: string) {
    ChangesWithin(env, before, after, s, Matches(env, before, after, s))
  }

  predicate AllMatch(env: Env, before: Xml, after: Xml, patches: seq<string>) {
    forall k :: 0 <= k < |patches| ==> Matches(env, before, after, patches[k]) > 0
  }

  predicate SomeChanges(env: Env, before: Xml, after: Xml, patches: seq<string>) {
    exists k :: 0 <= k < |patches| && Changes(env, before, after, patches[k])
  }

  /** What is left of the two documents. */
  predicate ResidualEqual(env: Env, before: Xml, after: Xml, patches: seq<string>) {
    Canonical(env, Masked(env, before, [], LabelsAfter(env, before, before, after, patches, |patches|)))
      == Canonical(env, Masked(env, after, [], LabelsAfter(env, after, before, after, patches, |patches|)))
  }

  datatype Failure = IndexOutOfRange

  /** Document `x` after a patch has masked `i` of the nodes that it found. */
  function MaskedWith(env: Env, x: Xml, labels: map<Path, Label>, found: seq<Path>, s: string, i: nat): Xml
    requires i <= |found|
  {
    Masked(env, x, [], AddLabels(labels, found, s, i))
  }

  lemma MaskingStarts(env: Env, x: Xml, labels: map<Path, Label>, s: string)
    ensures var m, found := Masked(env, x, [], labels), FoundMasked(env, x, labels, s);
      found == env.select(m, s) && MaskedWith(env, x, labels, found, s, 0) == m
  {
  }

  method MaskNext(env: Env, x: Xml, ghost labels: map<Path, Label>, found: seq<Path>, s: string, i: nat, m: Xml) returns (r: Xml)
    requires i < |found| && m == MaskedWith(env, x, labels, found, s, i)
    ensures r == MaskedWith(env, x, labels, found, s, i + 1)
  {
    if Repeated(found, i) { return m; }
    MaskOneMore(env, x, [], AddLabels(labels, found, s, i), found[i], Label(s, i));
    assert [] + found[i] == found[i];
    r := MaskAt(env, m, found[i], Label(s, i));
  }

  lemma ChangesStep(env: Env, before: Xml, after: Xml, s: string, i: nat)
    requires i < Matches(env, before, after, s)
    ensures ChangesWithin(env, before, after, s, i + 1) <==>
      ChangesWithin(env, before, after, s, i) || ChangedAt(env, before, after, s, i)
  {
    hide Matches, ChangedAt;
  }

  lemma ChangesEnds(env: Env, before: Xml, after: Xml, s: string)
    ensures !ChangesWithin(env, before, after, s, 0)
    ensures Changes(env, before, after, s) == ChangesWithin(env, before, after, s, Matches(env, before, after, s))
  {
  }

  /** The inner loop: one patch compares its nodes, and masks as many in each masked document. */
  method ApplyPatch(env: Env, before: Xml, after: Xml, s: string, beforeMasked: Xml, afterMasked: Xml,
                    ghost la: map<Path, Label>, ghost lb: map<Path, Label>)
    returns (failed: bool, changed: bool, ma: Xml, mb: Xml)
    requires beforeMasked == Masked(env, before, [], la) && afterMasked == Masked(env, after, [], lb)
    ensures var n := Matches(env, before, after, s);
      failed <==> n > |FoundMasked(env, before, la, s)| || n > |FoundMasked(env, after, lb, s)|
    ensures !failed ==> var n := Matches(env, before, after, s);
      && changed == Changes(env, before, after, s)
      && ma == MaskedWith(env, before, la, FoundMasked(env, before, la, s), s, n)
      && mb == MaskedWith(env, after, lb, FoundMasked(env, after, lb, s), s, n)
  {
    hide *;
    var n := Matches(env, before, after, s);
    var a, b := env.select(beforeMasked, s), env.select(afterMasked, s);
    MaskingStarts(env, before, la, s);
    MaskingStarts(env, after, lb, s);
    ChangesEnds(env, before, after, s);
    failed, changed, ma, mb := false, false, beforeMasked, afterMasked;
    var i := 0;
    while i < n
      invariant 0 <= i <= n && i <= |a| && i <= |b|
      invariant changed == ChangesWithin(env, before, after, s, i)
      invariant ma == MaskedWith(env, before, la, a, s, i) && mb == MaskedWith(env, after, lb, b, s, i)
    {
      ChangesStep(env, before, after, s, i);
      if ChangedAt(env, before, after, s, i) { changed := true; }
      if i >= |a| || i >= |b| { return true, changed, ma, mb; }
      ma := MaskNext(env, before, la, a, s, i, ma);
      mb := MaskNext(env, after, lb, b, s, i, mb);
      i := i + 1;
    }
  }

  /** The part of `_xml_changes` that authorises patches. */
  method AuthorizePatches(env: Env, before: Xml, after: Xml, patches: seq<string>) returns (r: Result<bool, Failure>)
    requires patches != []
    ensures r.Ok? <==> forall k :: 0 <= k < |patches| ==> FindsInBoth(env, before, after, patches, k)
    ensures r.Ok? ==> (r.value <==>
      AllMatch(env, before, after, patches) && SomeChanges(env, before, after, patches) && ResidualEqual(env, before, after, patches))
  {
    var ma, mb := before, after;
    var valid, changed := true, false;
    hide *;
    NothingMasked(env, before, []);
    NothingMasked(env, after, []);
    PatchesMean(env, before, after, patches);
    var k := 0;
    while k < |patches|
      invariant 0 <= k <= |patches|
      invariant ma == Masked(env, before, [], LabelsAfter(env, before, before, after, patches, k))
      invariant mb == Masked(env, after, [], LabelsAfter(env, after, before, after, patches, k))
      invariant valid <==> forall j :: 0 <= j < k ==> Matches(env, before, after, patches[j]) > 0
      invariant changed <==> exists j :: 0 <= j < k && Changes(env, before, after, patches[j])
      invariant forall j :: 0 <= j < k ==> FindsInBoth(env, before, after, patches, j)
    {
      var s := patches[k];
      ghost var la := LabelsAfter(env, before, before, after, patches, k);
      ghost var lb := LabelsAfter(env, after, before, after, patches, k);
      FindsMeans(env, before, after, patches, k);
      LabelsStep(env, before, before, after, patches, k);
      LabelsStep(env, after, before, after, patches, k);
      if Matches(env, before, after, s) == 0 {
        NothingAdded(env, before, after, s, la, FoundMasked(env, before, la, s));
        NothingAdded(env, before, after, s, lb, FoundMasked(env, after, lb, s));
        valid := false;
      } else {
        var failed, here, a, b := ApplyPatch(env, before, after, s, ma, mb, la, lb);
        if failed { return Err(IndexOutOfRange); }
        MaskedWithIs(env, before, la, FoundMasked(env, before, la, s), s, Matches(env, before, after, s));
        MaskedWithIs(env, after, lb, FoundMasked(env, after, lb, s), s, Matches(env, before, after, s));
        changed := changed || here;
        ma, mb := a, b;
      }
      k := k + 1;
    }
    return Ok(valid && changed && Canonical(env, ma) == Canonical(env, mb));
  }

  lemma MaskedWithIs(env: Env, x: Xml, labels: map<Path, Label>, found: seq<Path>, s: string, n: nat)
    requires n <= |found|
    ensures MaskedWith(env, x, labels, found, s, n) == Masked(env, x, [], AddLabels(labels, found, s, n))
  {
  }

  lemma PatchesMean(env: Env, before: Xml, after: Xml, patches: seq<string>)
    ensures LabelsAfter(env, before, before, after, patches, 0) == map[] && LabelsAfter(env, after, before, after, patches, 0) == map[]
    ensures AllMatch(env, before, after, patches) <==> forall k :: 0 <= k < |patches| ==> Matches(env, before, after, patches[k]) > 0
    ensures SomeChanges(env, before, after, patches) <==> exists k :: 0 <= k < |patches| && Changes(env, before, after, patches[k])
    ensures ResidualEqual(env, before, after, patches) <==>
      Canonical(env, Masked(env, before, [], LabelsAfter(env, before, before, after, patches, |patches|)))
      == Canonical(env, Masked(env, after, [], LabelsAfter(env, after, before, after, patches, |patches|)))
  {
  }

  lemma FindsMeans(env: Env, before: Xml, after: Xml, patches: seq<string>, k: nat)
    requires k < |patches|
    ensures var n, s := Matches(env, before, after, patches[k]), patches[k];
      FindsInBoth(env, before, after, patches, k) <==>
      && n <= |FoundMasked(env, before, LabelsAfter(env, before, before, after, patches, k), s)|
      && n <= |FoundMasked(env, after, LabelsAfter(env, after, before, after, patches, k), s)|
  {
    hide LabelsAfter, FoundMasked, Matches;
  }

  lemma LabelsStep(env: Env, x: Xml, before: Xml, after: Xml, patches: seq<string>, k: nat)
    requires k < |patches|
    ensures var labels := LabelsAfter(env, x, before, after, patches, k);
      var found := FoundMasked(env, x, labels, patches[k]);
      var n := Matches(env, before, after, patches[k]);
      LabelsAfter(env, x, before, after, patches, k + 1) == AddLabels(labels, found, patches[k], if n < |found| then n else |found|)
  {
    hide FoundMasked, Matches, AddLabels;
  }

  lemma NothingAdded(env: Env, before: Xml, after: Xml, s: string, labels: map<Path, Label>, found: seq<Path>)
    requires Matches(env, before, after, s) == 0
    ensures AddLabels(labels, found, s, 0) == labels && !Changes(env, before, after, s)
  {
  }

  lemma {:induction false} NothingMasked(env: Env, x: Xml, here: Path)
    ensures Masked(env, x, here, map[]) == x
    decreases x
  {
    forall i | 0 <= i < |x.children| ensures Masked(env, x.children[i], here + [i], map[]) == x.children[i] {
      NothingMasked(env, x.children[i], here + [i]);
    }
  }
}
