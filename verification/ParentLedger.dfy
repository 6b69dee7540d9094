/**
 The ledger over whole archives. Every path of either archive is judged, and the verdict is PASS when nothing is
 left undeclared and the declared parent is not contaminated.
 */
module ParentLedger {
  import opened Wrappers
  import opened ParentDiff
  import opened ParentDiffProofs

  /** SHA-256 as an injective name of what is hashed; a declaration may also hold the hash of something else. */
  datatype Digest = OfBytes(data: Bytes)

  datatype Change =
    | AddMember
    | RemoveMember(expectedParent: Option<Digest>)
    | ReplaceMember(expectedParent: Option<Digest>)
    | PatchRecord(expectedParent: Option<Digest>, selector: string)

  datatype Kind = MemberAdded | MemberRemoved | ByteIdentical | ByteChanged | FragmentChanged | OutsideSelector

  datatype Entry = Entry(path: string, kind: Kind, declared: bool)

  type Archive = map<string, Bytes>
  type Declarations = map<string, seq<Change>>

  const MAX_XML_BYTES := 32 * 1024 * 1024

  /**
   Parsing, `findall` and canonical text, and how many entries describe the fragments that changed between two
   documents under some selectors.
   */
  datatype Tools = Tools(env: Env, parse: Bytes -> Option<Xml>, fragments: (Xml, Xml, seq<string>) -> nat)

  predicate HashMatches(c: Change, before: Bytes) { !c.AddMember? && c.expectedParent == Some(OfBytes(before)) }

  /** The selectors of the patches that are declared against exactly these bytes. */
  function Patches(cs: seq<Change>, before: Bytes): seq<string> {
    if cs == [] then []
    else
      var last := cs[|cs| - 1];
      Patches(cs[..|cs| - 1], before) + if last.PatchRecord? && HashMatches(last, before) then [last.selector] else []
  }

  predicate Replaces(cs: seq<Change>, before: Bytes) {
    exists i :: 0 <= i < |cs| && cs[i].ReplaceMember? && HashMatches(cs[i], before)
  }

  predicate Removes(cs: seq<Change>, before: Bytes) {
    exists i :: 0 <= i < |cs| && cs[i].RemoveMember? && HashMatches(cs[i], before)
  }

  predicate Adds(cs: seq<Change>) { exists i :: 0 <= i < |cs| && cs[i].AddMember? }

  /** Both versions of a member are parsed as XML. */
  predicate Parsed(t: Tools, before: Bytes, after: Bytes) {
    |before| <= MAX_XML_BYTES && |after| <= MAX_XML_BYTES && t.parse(before).Some? && t.parse(after).Some?
  }

  /** The declared patches authorise the change of a member. */
  predicate PatchAuthorized(t: Tools, cs: seq<Change>, before: Bytes, after: Bytes) {
    Parsed(t, before, after) && Authorized(t.env, t.parse(before).value, t.parse(after).value, Patches(cs, before))
  }

  predicate AllFind(env: Env, before: Xml, after: Xml, patches: seq<string>) {
    forall k :: 0 <= k < |patches| ==> FindsInBoth(env, before, after, patches, k)
  }

  /** A selector finds fewer nodes in a masked document than it masks, which the code does not expect. */
  predicate Fails(t: Tools, cs: seq<Change>, before: Bytes, after: Bytes) {
    Parsed(t, before, after) && !AllFind(t.env, t.parse(before).value, t.parse(after).value, Patches(cs, before))
  }

  /** What `declared` says about a path that both archives have, with different bytes. */
  predicate ChangeCovered(t: Tools, cs: seq<Change>, before: Bytes, after: Bytes) {
    Replaces(cs, before) || PatchAuthorized(t, cs, before, after)
  }

  function ChangesAt(ds: Declarations, path: string): seq<Change> { if path in ds then ds[path] else [] }

  /** A path is byte-identical, or covered by a matching declaration. */
  predicate Covered(t: Tools, before: Archive, after: Archive, ds: Declarations, path: string) {
    var cs := ChangesAt(ds, path);
    if path in before && path in after then before[path] == after[path] || ChangeCovered(t, cs, before[path], after[path])
    else if path in after then Adds(cs)
    else path in before ==> Removes(cs, before[path])
  }

  predicate SameAt(before: Archive, after: Archive, path: string) {
    path in before && path in after && before[path] == after[path]
  }

  predicate FailsAt(t: Tools, before: Archive, after: Archive, ds: Declarations, toCandidate: bool, path: string) {
    && path in before && path in after && before[path] != after[path]
    && Fails(t, if toCandidate then ChangesAt(ds, path) else [], before[path], after[path])
  }

  // ----- one member -----

  predicate AllDeclared(es: seq<Entry>) { forall i :: 0 <= i < |es| ==> es[i].declared }

  /** The entries about one changed member: at least one, and all about it. */
  predicate AboutChange(es: seq<Entry>, path: string) {
    es != [] && forall i :: 0 <= i < |es| ==> es[i].path == path && !es[i].kind.ByteIdentical?
  }

  method XmlChanges(t: Tools, path: string, toCandidate: bool, before: Bytes, after: Bytes, patches: seq<string>)
    returns (r: Result<(seq<Entry>, bool), Failure>)
    ensures r.Err? <==> Parsed(t, before, after) && !AllFind(t.env, t.parse(before).value, t.parse(after).value, patches)
    ensures r.Ok? ==> (r.value.1 <==>
      Parsed(t, before, after) && Authorized(t.env, t.parse(before).value, t.parse(after).value, patches))
    ensures r.Ok? ==> forall i :: 0 <= i < |r.value.0| ==> r.value.0[i].path == path && !r.value.0[i].kind.ByteIdentical?
    ensures r.Ok? && toCandidate && r.value.1 ==> AllDeclared(r.value.0)
  {
    hide FindsInBoth, AllMatch, SomeChanges, ResidualEqual;
    if |before| > MAX_XML_BYTES || |after| > MAX_XML_BYTES { return Ok(([], false)); }
    var a, b := t.parse(before), t.parse(after);
    if a.None? || b.None? { return Ok(([], false)); }
    var entries := seq(t.fragments(a.value, b.value, patches), i => Entry(path, FragmentChanged, toCandidate));
    if patches == [] { return Ok((entries, false)); }
    var authorized := AuthorizePatches(t.env, a.value, b.value, patches);
    if authorized.Err? { return Err(authorized.error); }
    if !authorized.value { entries := entries + [Entry(path, OutsideSelector, false)]; }
    return Ok((entries, authorized.value));
  }

  /** `_changed_member`. */
  method ChangedMember(t: Tools, path: string, toCandidate: bool, before: Bytes, after: Bytes, cs: seq<Change>)
    returns (r: Result<seq<Entry>, Failure>)
    ensures r.Err? <==> Fails(t, cs, before, after)
    ensures r.Ok? ==> AboutChange(r.value, path)
    ensures r.Ok? && toCandidate ==> (AllDeclared(r.value) <==> ChangeCovered(t, cs, before, after))
  {
    hide FindsInBoth, Authorized, Patches;
    var changes := XmlChanges(t, path, toCandidate, before, after, Patches(cs, before));
    if changes.Err? { return Err(changes.error); }
    var (semantic, authorized) := changes.value;
    var replacement := Replaces(cs, before);
    var first := Entry(path, ByteChanged, toCandidate && (replacement || authorized));
    if replacement {
      semantic := seq(|semantic|, i requires 0 <= i < |semantic| => semantic[i].(declared := true));
    }
    r := Ok([first] + semantic);
    assert r.value[0] == first;
  }

  // ----- all members -----

  /** What the ledger says about one path. */
  ghost predicate Judged(t: Tools, before: Archive, after: Archive, ds: Declarations, toCandidate: bool, path: string, es: seq<Entry>) {
    && (exists i :: 0 <= i < |es| && es[i].path == path)
    && (forall i :: 0 <= i < |es| && es[i].path == path ==> (es[i].kind == ByteIdentical <==> SameAt(before, after, path)))
    && (toCandidate ==> (
         (forall i :: 0 <= i < |es| && es[i].path == path ==> es[i].declared) <==> Covered(t, before, after, ds, path)))
  }

  lemma JudgedStays(t: Tools, before: Archive, after: Archive, ds: Declarations, toCandidate: bool, path: string,
                    es: seq<Entry>, more: seq<Entry>)
    requires Judged(t, before, after, ds, toCandidate, path, es)
    requires forall i :: 0 <= i < |more| ==> more[i].path != path
    ensures Judged(t, before, after, ds, toCandidate, path, es + more)
  {
    hide Covered, SameAt;
    var all := es + more;
    forall i | 0 <= i < |all| && all[i].path == path ensures i < |es| && all[i] == es[i] {}
    var i :| 0 <= i < |es| && es[i].path == path;
    assert all[i].path == path;
    forall i | 0 <= i < |es| ensures all[i] == es[i] {}
  }

  lemma JudgedNew(t: Tools, before: Archive, after: Archive, ds: Declarations, toCandidate: bool, path: string,
                  es: seq<Entry>, more: seq<Entry>)
    requires forall i :: 0 <= i < |es| ==> es[i].path != path
    requires more != [] && forall i :: 0 <= i < |more| ==>
      more[i].path == path && (more[i].kind == ByteIdentical <==> SameAt(before, after, path))
    requires toCandidate ==> (AllDeclared(more) <==> Covered(t, before, after, ds, path))
    ensures Judged(t, before, after, ds, toCandidate, path, es + more)
  {
    hide Covered, SameAt;
    var all := es + more;
    assert all[|es|] == more[0];
    forall i | 0 <= i < |all| && all[i].path == path ensures i >= |es| && all[i] == more[i - |es|] {}
    forall i | 0 <= i < |more| ensures all[i + |es|] == more[i] {}
  }

  lemma OneDeclared(e: Entry)
    ensures AllDeclared([e]) <==> e.declared
  {
    assert [e][0] == e;
  }

  /** One turn of the loop of `_compare_members`. */
  method CompareMember(t: Tools, before: Archive, after: Archive, ds: Declarations, toCandidate: bool, path: string)
    returns (r: Result<seq<Entry>, Failure>)
    requires path in before || path in after
    ensures r.Err? <==> FailsAt(t, before, after, ds, toCandidate, path)
    ensures r.Ok? ==> r.value != [] && forall i :: 0 <= i < |r.value| ==>
      r.value[i].path == path && (r.value[i].kind == ByteIdentical <==> SameAt(before, after, path))
    ensures r.Ok? && toCandidate ==> (AllDeclared(r.value) <==> Covered(t, before, after, ds, path))
  {
    hide Fails, ChangeCovered;
    var cs := if toCandidate then ChangesAt(ds, path) else [];
    if path !in before {
      OneDeclared(Entry(path, MemberAdded, Adds(cs)));
      return Ok([Entry(path, MemberAdded, Adds(cs))]);
    }
    if path !in after {
      OneDeclared(Entry(path, MemberRemoved, Removes(cs, before[path])));
      return Ok([Entry(path, MemberRemoved, Removes(cs, before[path]))]);
    }
    if before[path] == after[path] {
      return Ok([Entry(path, ByteIdentical, true)]);
    }
    r := ChangedMember(t, path, toCandidate, before[path], after[path], cs);
  }

  /** What a ledger over all paths says. */
  ghost predicate Complete(t: Tools, before: Archive, after: Archive, ds: Declarations, toCandidate: bool, es: seq<Entry>) {
    && (forall i :: 0 <= i < |es| ==> es[i].path in before || es[i].path in after)
    && (forall path :: path in before || path in after ==> Judged(t, before, after, ds, toCandidate, path, es))
  }

  lemma CompleteMeans(t: Tools, before: Archive, after: Archive, ds: Declarations, toCandidate: bool, es: seq<Entry>)
    requires forall i :: 0 <= i < |es| ==> es[i].path in before.Keys + after.Keys
    requires forall path :: path in before.Keys + after.Keys ==> Judged(t, before, after, ds, toCandidate, path, es)
    ensures Complete(t, before, after, ds, toCandidate, es)
  {
    hide Judged;
  }

  lemma AbsentNeverFails(t: Tools, before: Archive, after: Archive, ds: Declarations, toCandidate: bool, path: string)
    requires path !in before.Keys + after.Keys
    ensures !FailsAt(t, before, after, ds, toCandidate, path)
  {
  }

  /** Without declarations there is nothing to mask. */
  lemma CleanNeverFails(t: Tools, before: Archive, after: Archive, ds: Declarations, path: string)
    ensures !FailsAt(t, before, after, ds, false, path)
  {
  }

  /** `_compare_members`, over the paths in any order. */
  method CompareMembers(t: Tools, before: Archive, after: Archive, ds: Declarations, toCandidate: bool)
    returns (r: Result<seq<Entry>, Failure>)
    ensures r.Ok? ==> Complete(t, before, after, ds, toCandidate, r.value)
    ensures r.Err? <==> exists path :: FailsAt(t, before, after, ds, toCandidate, path)
  {
    hide *;
    var entries: seq<Entry> := [];
    var paths := before.Keys + after.Keys;
    var todo := paths;
    while todo != {}
      invariant todo <= paths
      invariant forall i :: 0 <= i < |entries| ==> entries[i].path in paths && entries[i].path !in todo
      invariant forall path :: path in paths && path !in todo ==>
        Judged(t, before, after, ds, toCandidate, path, entries) && !FailsAt(t, before, after, ds, toCandidate, path)
      decreases |todo|
    {
      var path :| path in todo;
      var more := CompareMember(t, before, after, ds, toCandidate, path);
      if more.Err? { return Err(more.error); }
      forall other | other in paths && other !in todo
        ensures Judged(t, before, after, ds, toCandidate, other, entries + more.value)
      {
        JudgedStays(t, before, after, ds, toCandidate, other, entries, more.value);
      }
      JudgedNew(t, before, after, ds, toCandidate, path, entries, more.value);
      entries := entries + more.value;
      todo := todo - {path};
    }
    CompleteMeans(t, before, after, ds, toCandidate, entries);
    forall path ensures !FailsAt(t, before, after, ds, toCandidate, path) {
      if path !in paths { AbsentNeverFails(t, before, after, ds, toCandidate, path); }
    }
    return Ok(entries);
  }

  predicate Differs(e: Entry) { e.kind != ByteIdentical }

  predicate Undeclared(e: Entry) { e.kind != ByteIdentical && !e.declared }

  lemma CleanMeans(t: Tools, before: Archive, after: Archive, ds: Declarations, es: seq<Entry>)
    requires Complete(t, before, after, ds, false, es)
    ensures (exists i :: 0 <= i < |es| && Differs(es[i])) <==> before != after
  {
    if exists i :: 0 <= i < |es| && Differs(es[i]) {
      var i :| 0 <= i < |es| && Differs(es[i]);
      assert Judged(t, before, after, ds, false, es[i].path, es);
    } else {
      forall path | path in before || path in after ensures SameAt(before, after, path) {
        assert Judged(t, before, after, ds, false, path, es);
        var i :| 0 <= i < |es| && es[i].path == path;
        assert !Differs(es[i]);
      }
    }
  }

  lemma UndeclaredMeans(t: Tools, before: Archive, after: Archive, ds: Declarations, path: string, es: seq<Entry>)
    requires Judged(t, before, after, ds, true, path, es)
    ensures (exists i :: 0 <= i < |es| && es[i].path == path && Undeclared(es[i])) <==> !Covered(t, before, after, ds, path)
  {
    SameIsCovered(t, before, after, ds, path);
    hide Covered, SameAt;
    if !Covered(t, before, after, ds, path) {
      var i :| 0 <= i < |es| && es[i].path == path && !es[i].declared;
      assert Undeclared(es[i]);
    }
  }

  lemma SameIsCovered(t: Tools, before: Archive, after: Archive, ds: Declarations, path: string)
    ensures SameAt(before, after, path) ==> Covered(t, before, after, ds, path)
  {
  }

  lemma CoveredMeans(t: Tools, before: Archive, after: Archive, ds: Declarations, es: seq<Entry>)
    requires Complete(t, before, after, ds, true, es)
    ensures (exists i :: 0 <= i < |es| && Undeclared(es[i])) <==>
      exists path :: (path in before || path in after) && !Covered(t, before, after, ds, path)
  {
    hide Judged, Covered, Undeclared;
    if exists i :: 0 <= i < |es| && Undeclared(es[i]) {
      var i :| 0 <= i < |es| && Undeclared(es[i]);
      UndeclaredMeans(t, before, after, ds, es[i].path, es);
    }
    if exists path :: (path in before || path in after) && !Covered(t, before, after, ds, path) {
      var path :| (path in before || path in after) && !Covered(t, before, after, ds, path);
      UndeclaredMeans(t, before, after, ds, path, es);
    }
  }

  lemma UndeclaredSplits(a: seq<Entry>, b: seq<Entry>)
    ensures (exists i :: 0 <= i < |a + b| && Undeclared((a + b)[i])) <==>
      (exists i :: 0 <= i < |a| && Undeclared(a[i])) || (exists i :: 0 <= i < |b| && Undeclared(b[i]))
    ensures (exists i :: 0 <= i < |a| && Undeclared(a[i])) ==> exists i :: 0 <= i < |a| && Differs(a[i])
  {
    var c := a + b;
    if exists i :: 0 <= i < |c| && Undeclared(c[i]) {
      var i :| 0 <= i < |c| && Undeclared(c[i]);
      assert if i < |a| then c[i] == a[i] else c[i] == b[i - |a|];
    }
    if exists i :: 0 <= i < |a| && Undeclared(a[i]) {
      var i :| 0 <= i < |a| && Undeclared(a[i]);
      assert c[i] == a[i] && Differs(a[i]);
    }
    if exists i :: 0 <= i < |b| && Undeclared(b[i]) {
      var i :| 0 <= i < |b| && Undeclared(b[i]);
      assert c[|a| + i] == b[i];
    }
  }

  /**
   The verdict of the whole diff. There is none exactly when a selector runs out of nodes to mask in some member that
   differs between parent and candidate. Otherwise it is PASS exactly when the clean parent, if there is one, has the
   parent's members, and every path of either archive is byte-identical or covered by a matching declaration.
   */
  method Diff(t: Tools, clean: Option<Archive>, parent: Archive, candidate: Archive, ds: Declarations)
    returns (r: Result<bool, Failure>)
    ensures r.Err? <==> exists path :: FailsAt(t, parent, candidate, ds, true, path)
    ensures r.Ok? ==> (r.value <==>
      && (clean.Some? ==> clean.value == parent)
      && forall path :: path in parent || path in candidate ==> Covered(t, parent, candidate, ds, path))
  {
    hide *;
    var contamination := false;
    var baseline: seq<Entry> := [];
    if clean.Some? {
      forall path ensures !FailsAt(t, clean.value, parent, map[], false, path) { CleanNeverFails(t, clean.value, parent, map[], path); }
      var entries := CompareMembers(t, clean.value, parent, map[], false);
      baseline := entries.value;                        // without declarations nothing can fail
      CleanMeans(t, clean.value, parent, map[], baseline);
      contamination := exists i :: 0 <= i < |baseline| && Differs(baseline[i]);
    }
    var changes := CompareMembers(t, parent, candidate, ds, true);
    if changes.Err? { return Err(changes.error); }
    CoveredMeans(t, parent, candidate, ds, changes.value);
    UndeclaredSplits(baseline, changes.value);
    var ledger := baseline + changes.value;
    var undeclared := exists i :: 0 <= i < |ledger| && Undeclared(ledger[i]);
    r := Ok(!undeclared && !contamination);
  }
}
