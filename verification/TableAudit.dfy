/**
 What the merge means for one record, and the audit that computes the winners of every record independently:
 it groups the rows first and drops a provider's repetitions inside each group.
 */
module TableAudit {
  import opened Wrappers
  import opened TableMerge

  predicate AllUnique(rows: seq<Row>) { forall i :: 0 <= i < |rows| ==> UniqueNames(rows[i].attributes) }

  // ----- what the merge means -----

  /** The last row to mention a name. */
  function LastMentioning(rows: seq<Row>, name: string): (r: Option<Row>)
    ensures r.Some? ==> r.value in rows && Mentions(r.value.attributes, name)
  {
    if rows == [] then None
    else if Mentions(rows[|rows| - 1].attributes, name) then Some(rows[|rows| - 1])
    else LastMentioning(rows[..|rows| - 1], name)
  }

  /** The row whose value an attribute has: in an old table only the last row speaks. */
  function Deciding(p: Profile, rows: seq<Row>, name: string): Option<Row> {
    if p.oldTable && rows != [] then LastMentioning(rows[|rows| - 1..], name) else LastMentioning(rows, name)
  }

  function ValueFrom(row: Option<Row>, name: string): Option<string> {
    if row.None? then None else Lookup(row.value.attributes, name)
  }

  lemma DecidingLast(p: Profile, rows: seq<Row>, name: string)
    requires rows != []
    ensures var last := rows[|rows| - 1];
      Deciding(p, rows, name) ==
        if Mentions(last.attributes, name) then Some(last) else if p.oldTable then None else LastMentioning(rows[..|rows| - 1], name)
  {
    var tail := rows[|rows| - 1..];
    assert tail[..0] == [] && tail[0] == rows[|rows| - 1];
  }

  /** The row that set the value an attribute has in the effective record: rows that only restate it set nothing. */
  function Setting(p: Profile, rows: seq<Row>, name: string): (r: Option<Row>)
    requires rows != []
    ensures r.Some? ==> Mentions(r.value.attributes, name)
  {
    var front, last := rows[..|rows| - 1], rows[|rows| - 1];
    if front != [] && Restates(RecordOf(p, front), last) then Setting(p, front, name)
    else if Mentions(last.attributes, name) then Some(last)
    else if p.oldTable || front == [] then None
    else Setting(p, front, name)
  }

  /** Every attribute of an effective record has the value of the row that set it. */
  lemma {:induction false} MergedAttribute(p: Profile, rows: seq<Row>, name: string)
    requires rows != []
    ensures Lookup(RecordOf(p, rows).attributes, name) == ValueFrom(Setting(p, rows, name), name)
    decreases |rows|
  {
    if |rows| > 1 {
      var front, last := rows[..|rows| - 1], rows[|rows| - 1];
      MergedAttribute(p, front, name);
      MergedStep(p, RecordOf(p, front), last, name);
      hide Apply, Lookup, Mentions, Restates;
      LookupIsMention(last.attributes, name);
    } else {
      LookupIsMention(rows[0].attributes, name);
    }
  }

  lemma LookupIsMention(a: seq<Attribute>, name: string)
    ensures Mentions(a, name) <==> Lookup(a, name).Some?
  {
  }

  lemma MergedStep(p: Profile, r: Record, c: Row, name: string)
    ensures Lookup(Apply(p, r, c).attributes, name) ==
      if Restates(r, c) then Lookup(r.attributes, name)
      else if Mentions(c.attributes, name) then Lookup(c.attributes, name)
      else if p.oldTable then None else Lookup(r.attributes, name)
  {
    if !Restates(r, c) { PatchedLookup(r.attributes, c.attributes, name); }
    hide Patched, Restates, MergedChildren;
    LookupIsMention(c.attributes, name);
  }

  /** An effective record mentions a name exactly when there is a row to decide it. */
  lemma {:induction false} MergedNames(p: Profile, rows: seq<Row>, name: string)
    requires rows != []
    ensures Mentions(RecordOf(p, rows).attributes, name) <==> Deciding(p, rows, name).Some?
    decreases |rows|
  {
    DecidingLast(p, rows, name);
    var front, last := rows[..|rows| - 1], rows[|rows| - 1];
    LookupIsMention(RecordOf(p, rows).attributes, name);
    LookupIsMention(last.attributes, name);
    if front == [] {
      assert LastMentioning(front, name) == None;
    } else {
      MergedNames(p, front, name);
      DecidingIsMentioning(p, front, name);
      MergedStep(p, RecordOf(p, front), last, name);
      LookupIsMention(RecordOf(p, front).attributes, name);
      assert RecordOf(p, rows) == Apply(p, RecordOf(p, front), last);
      if Restates(RecordOf(p, front), last) { SameItemsSameMentions(RecordOf(p, front).attributes, last.attributes, name); }
      hide RecordOf, Apply, Lookup, Mentions, Restates, LastMentioning;
    }
  }

  lemma DecidingIsMentioning(p: Profile, rows: seq<Row>, name: string)
    ensures !p.oldTable ==> Deciding(p, rows, name) == LastMentioning(rows, name)
  {
  }

  /** Where no row repeats a name, the deciding row is one that agrees with the row that set the value. */
  lemma {:induction false} UniqueNamesAgree(p: Profile, rows: seq<Row>, name: string)
    requires rows != [] && AllUnique(rows)
    ensures UniqueNames(RecordOf(p, rows).attributes)
    ensures Lookup(RecordOf(p, rows).attributes, name) == ValueFrom(Deciding(p, rows, name), name)
    decreases |rows|
  {
    DecidingLast(p, rows, name);
    var front, last := rows[..|rows| - 1], rows[|rows| - 1];
    LookupIsMention(last.attributes, name);
    if front == [] {
      assert LastMentioning(front, name) == None;
    } else {
      var r := RecordOf(p, front);
      UniqueNamesAgree(p, front, name);
      DecidingIsMentioning(p, front, name);
      MergedStep(p, r, last, name);
      UniqueStep(p, r, last);
      if Restates(r, last) { SameItemsSameLookup(r.attributes, last.attributes, name); }
      assert RecordOf(p, rows) == Apply(p, r, last);
      hide RecordOf, Apply, Lookup, Mentions, Restates, LastMentioning, UniqueNames;
    }
  }

  lemma UniqueStep(p: Profile, r: Record, c: Row)
    requires UniqueNames(r.attributes) && UniqueNames(c.attributes)
    ensures UniqueNames(Apply(p, r, c).attributes)
  {
    PatchedIsUnique(r.attributes, c.attributes);
    hide UniqueNames, Patched, Restates;
  }

  function Providers(rows: seq<Row>): seq<string> { seq(|rows|, i requires 0 <= i < |rows| => rows[i].provider) }

  lemma {:induction false} MergedProviders(p: Profile, rows: seq<Row>)
    requires rows != []
    ensures RecordOf(p, rows).providers == Providers(rows) && RecordOf(p, rows).recordKey == rows[0].recordKey
    decreases |rows|
  {
    hide Restates, Patched, MergedChildren, Complaint;
    if |rows| > 1 { MergedProviders(p, rows[..|rows| - 1]); }
  }

  /** Row `j` names everything that the row before it names. */
  predicate RepeatsNames(rows: seq<Row>, j: nat)
    requires 1 <= j < |rows|
  {
    !DropsName(rows[j - 1].attributes, rows[j].attributes)
  }

  predicate AllRepeat(rows: seq<Row>) { forall j :: 1 <= j < |rows| ==> RepeatsNames(rows, j) }

  lemma AllRepeatStep(rows: seq<Row>)
    requires |rows| > 1
    ensures AllRepeat(rows) <==> AllRepeat(rows[..|rows| - 1]) && RepeatsNames(rows, |rows| - 1)
  {
    hide DropsName;
    var front := rows[..|rows| - 1];
    assert forall j :: 1 <= j < |front| ==> (RepeatsNames(front, j) <==> RepeatsNames(rows, j));
  }

  lemma ReasonsStep(p: Profile, rows: seq<Row>)
    requires |rows| > 1
    ensures RecordOf(p, rows).reasons ==
      RecordOf(p, rows[..|rows| - 1]).reasons + Complaint(p, RecordOf(p, rows[..|rows| - 1]), rows[|rows| - 1])
  {
    hide Restates, Patched, MergedChildren;
    var r, last := RecordOf(p, rows[..|rows| - 1]), rows[|rows| - 1];
    if Restates(r, last) {
      NoComplaint(p, r, last);
      assert r.reasons + [] == r.reasons;
    }
  }

  /** An old table's record is resolved exactly when every row repeats each name of the row before it. */
  lemma {:induction false} OldRecordResolved(p: Profile, rows: seq<Row>)
    requires rows != [] && p.oldTable
    ensures RecordOf(p, rows).reasons == [] <==> AllRepeat(rows)
    decreases |rows|
  {
    if |rows| > 1 {
      OldRecordResolved(p, rows[..|rows| - 1]);
      OldRowComplains(p, rows);
      ReasonsStep(p, rows);
      AllRepeatStep(rows);
      hide *;
    }
  }

  lemma NoComplaint(p: Profile, r: Record, c: Row)
    requires Restates(r, c)
    ensures Complaint(p, r, c) == []
  {
  }

  lemma OldRowComplains(p: Profile, rows: seq<Row>)
    requires |rows| > 1 && p.oldTable
    ensures Complaint(p, RecordOf(p, rows[..|rows| - 1]), rows[|rows| - 1]) == [] <==> RepeatsNames(rows, |rows| - 1)
  {
    var front, last := rows[..|rows| - 1], rows[|rows| - 1];
    var r, prev := RecordOf(p, front), rows[|rows| - 2];
    forall name ensures Mentions(r.attributes, name) <==> Mentions(prev.attributes, name) {
      MergedNames(p, front, name);
      DecidingLast(p, front, name);
    }
    hide RecordOf, Lookup;
    SomeDrop(r.attributes, prev.attributes, last.attributes);
    SomeDrop(prev.attributes, r.attributes, last.attributes);
    if Restates(r, last) { RestatingDropsNothing(r, last); }
  }

  lemma SomeDrop(a: seq<Attribute>, b: seq<Attribute>, c: seq<Attribute>)
    requires forall name :: Mentions(a, name) <==> Mentions(b, name)
    ensures DropsName(a, c) ==> DropsName(b, c)
  {
    if DropsName(a, c) {
      var i :| 0 <= i < |a| && !Mentions(c, a[i].name);
      Mentioned(a, i);
      var k := LastIndex(b, a[i].name);
      assert b[k].name == a[i].name;
    }
  }

  lemma RestatingDropsNothing(r: Record, c: Row)
    requires Restates(r, c)
    ensures !DropsName(r.attributes, c.attributes)
  {
    forall i | 0 <= i < |r.attributes| ensures Mentions(c.attributes, r.attributes[i].name) {
      Mentioned(r.attributes, i);
      SameItemsSameMentions(r.attributes, c.attributes, r.attributes[i].name);
    }
  }

  // ----- nested children -----

  /** The first row with children, or else the last row. */
  function FirstWithChildren(rows: seq<Row>): (r: Row)
    requires rows != []
    ensures r in rows
  {
    if rows[0].children != [] || |rows| == 1 then rows[0] else FirstWithChildren(rows[1..])
  }

  /** The children of the rows that do not merely restate what is already merged. */
  function AppendedChildren(p: Profile, rows: seq<Row>): seq<Element>
    requires rows != []
  {
    var front, last := rows[..|rows| - 1], rows[|rows| - 1];
    if front == [] then last.children
    else AppendedChildren(p, front) + if Restates(RecordOf(p, front), last) then [] else last.children
  }

  /** Where the children of an effective record come from. */
  function ChildSource(p: Profile, rows: seq<Row>): seq<Element>
    requires rows != []
  {
    if p.oldTable then rows[|rows| - 1].children
    else match p.list
      case Append => AppendedChildren(p, rows)
      case Replace => rows[|rows| - 1].children
      case PerItemPatch => FirstWithChildren(rows).children
      case _ => rows[0].children
  }

  lemma NormalizeNone(es: seq<Element>)
    ensures NormalizeAll(es) == [] <==> es == []
  {
  }

  lemma {:induction false} FirstWithChildrenStep(rows: seq<Row>)
    requires |rows| > 1
    ensures var front := FirstWithChildren(rows[..|rows| - 1]);
      FirstWithChildren(rows).children == if front.children == [] then rows[|rows| - 1].children else front.children
    decreases |rows|
  {
    var front := rows[..|rows| - 1];
    if rows[0].children == [] && |rows| > 2 {
      assert front[1..] == rows[1..][..|rows| - 2];
      FirstWithChildrenStep(rows[1..]);
    }
  }

  lemma RestatedChildren(p: Profile, r: Record, c: Row)
    ensures Apply(p, r, c).children ==
      if Restates(r, c) then r.children else if p.oldTable then c.children else MergedChildren(p, r.children, c.children)
    ensures Restates(r, c) ==> NormalizeAll(r.children) == NormalizeAll(c.children)
  {
  }

  /** Up to the order of attributes, the children of an effective record are those of its source. */
  lemma {:induction false} MergedChildSource(p: Profile, rows: seq<Row>)
    requires rows != []
    ensures NormalizeAll(RecordOf(p, rows).children) == NormalizeAll(ChildSource(p, rows))
    decreases |rows|
  {
    hide *;
    if |rows| == 1 {
      OneRowSource(p, rows);
    } else {
      MergedChildSource(p, rows[..|rows| - 1]);
      if !p.oldTable && p.list == Append {
        AppendIsSource(p, rows);
        AppendIsSource(p, rows[..|rows| - 1]);
        AppendedStep(p, rows);
      } else {
        SourceStep(p, rows);
      }
    }
  }

  lemma OneRowSource(p: Profile, rows: seq<Row>)
    requires |rows| == 1
    ensures RecordOf(p, rows).children == ChildSource(p, rows) == rows[0].children
  {
  }

  lemma AppendIsSource(p: Profile, rows: seq<Row>)
    requires rows != [] && !p.oldTable && p.list == Append
    ensures ChildSource(p, rows) == AppendedChildren(p, rows)
  {
  }

  lemma SourceStep(p: Profile, rows: seq<Row>)
    requires |rows| > 1 && (p.oldTable || p.list != Append)
    requires NormalizeAll(RecordOf(p, rows[..|rows| - 1]).children) == NormalizeAll(ChildSource(p, rows[..|rows| - 1]))
    ensures NormalizeAll(RecordOf(p, rows).children) == NormalizeAll(ChildSource(p, rows))
  {
    var front, last := rows[..|rows| - 1], rows[|rows| - 1];
    var r := RecordOf(p, front);
    assert RecordOf(p, rows) == Apply(p, r, last) && front[0] == rows[0];
    hide RecordOf, NormalizeAll, Apply, Restates, FirstWithChildren;
    RestatedChildren(p, r, last);
    if !p.oldTable && p.list == PerItemPatch {
      NormalizeNone(r.children);
      NormalizeNone(FirstWithChildren(front).children);
      FirstWithChildrenStep(rows);
    }
  }

  lemma AppendedStep(p: Profile, rows: seq<Row>)
    requires |rows| > 1 && !p.oldTable && p.list == Append
    requires NormalizeAll(RecordOf(p, rows[..|rows| - 1]).children) == NormalizeAll(AppendedChildren(p, rows[..|rows| - 1]))
    ensures NormalizeAll(RecordOf(p, rows).children) == NormalizeAll(AppendedChildren(p, rows))
  {
    var front, last := rows[..|rows| - 1], rows[|rows| - 1];
    var r, was := RecordOf(p, front), AppendedChildren(p, front);
    assert RecordOf(p, rows) == Apply(p, r, last);
    hide RecordOf, NormalizeAll, Apply, Restates;
    RestatedChildren(p, r, last);
    NormalizeConcat(r.children, last.children);
    NormalizeConcat(was, last.children);
    assert was + [] == was;
  }

  lemma NormalizeConcat(a: seq<Element>, b: seq<Element>)
    ensures NormalizeAll(a + b) == NormalizeAll(a) + NormalizeAll(b)
  {
  }

  // ----- the audit -----

  function GroupOf(p: Profile, cs: seq<Row>, key: Key): seq<Row> {
    if cs == [] then []
    else GroupOf(p, cs[..|cs| - 1], key) + if KeyOf(p, cs[|cs| - 1]) == Some(key) then [cs[|cs| - 1]] else []
  }

  predicate HasProvider(p: Profile, raw: seq<Row>, provider: string) {
    exists i :: 0 <= i < |raw| && p.fold(raw[i].provider) == provider
  }

  /** The first row of each provider. */
  function FirstPerProvider(p: Profile, raw: seq<Row>): seq<Row> {
    if raw == [] then []
    else
      var front, last := raw[..|raw| - 1], raw[|raw| - 1];
      FirstPerProvider(p, front) + if HasProvider(p, front, p.fold(last.provider)) then [] else [last]
  }

  lemma HasProviderStep(p: Profile, raw: seq<Row>, c: Row, provider: string)
    ensures HasProvider(p, raw + [c], provider) <==> HasProvider(p, raw, provider) || p.fold(c.provider) == provider
  {
    if HasProvider(p, raw, provider) {
      var i :| 0 <= i < |raw| && p.fold(raw[i].provider) == provider;
      assert (raw + [c])[i] == raw[i];
    }
    assert (raw + [c])[|raw|] == c;
  }

  lemma FirstPerProviderStep(p: Profile, raw: seq<Row>, c: Row)
    ensures FirstPerProvider(p, raw + [c]) == FirstPerProvider(p, raw) + if HasProvider(p, raw, p.fold(c.provider)) then [] else [c]
  {
    assert (raw + [c])[..|raw|] == raw;
  }

  lemma {:induction false} GroupHasProvider(p: Profile, cs: seq<Row>, key: Key, provider: string)
    ensures HasProvider(p, GroupOf(p, cs, key), provider) <==> Has(p, cs, provider, key)
    decreases |cs|
  {
    if cs != [] {
      var front, last := cs[..|cs| - 1], cs[|cs| - 1];
      GroupHasProvider(p, front, key, provider);
      assert cs == front + [last];
      HasStep(p, front, last, provider, key);
      HasProviderStep(p, GroupOf(p, front, key), last, provider);
      hide Has, HasProvider, KeyOf;
      assert GroupOf(p, front, key) + [] == GroupOf(p, front, key);
    }
  }

  /** Grouping by key and then dropping repetitions keeps exactly the rows that the merge counts. */
  lemma {:induction false} GroupedRowsCount(p: Profile, cs: seq<Row>, key: Key)
    ensures FirstPerProvider(p, GroupOf(p, cs, key)) == RowsOf(p, cs, key)
    decreases |cs|
  {
    if cs != [] {
      var front, last := cs[..|cs| - 1], cs[|cs| - 1];
      GroupedRowsCount(p, front, key);
      GroupHasProvider(p, front, key, p.fold(last.provider));
      FirstPerProviderStep(p, GroupOf(p, front, key), last);
      hide Has, HasProvider, KeyOf;
      assert GroupOf(p, front, key) + [] == GroupOf(p, front, key);
    }
  }

  /** The citations of one row's children. */
  function Cite(row: Row): seq<(nat, Row)> { seq(|row.children|, i requires 0 <= i < |row.children| => (i, row)) }

  function CiteAll(rows: seq<Row>): seq<(nat, Row)> {
    if rows == [] then [] else CiteAll(rows[..|rows| - 1]) + Cite(rows[|rows| - 1])
  }

  /** The rows that win a record, its attributes and its children. */
  datatype Audit = Audit(winner: Row, attributeWinners: map<string, Row>, childWinners: seq<(nat, Row)>, providers: seq<string>)

  /** The attribute winners are the deciding rows. */
  ghost predicate Wins(p: Profile, rows: seq<Row>, winners: map<string, Row>) {
    forall name :: if name in winners then Deciding(p, rows, name) == Some(winners[name]) else Deciding(p, rows, name) == None
  }

  ghost predicate Describes(p: Profile, rows: seq<Row>, audit: Audit) {
    && rows != [] && audit.winner == rows[|rows| - 1] && audit.providers == Providers(rows)
    && Wins(p, rows, audit.attributeWinners)
    && audit.childWinners == if p.list == Append then CiteAll(rows) else Cite(rows[|rows| - 1])
  }

  /** The deciding row of an attribute gives the value that the row which set it gives. */
  predicate SameValue(p: Profile, rows: seq<Row>, name: string)
    requires rows != []
  {
    ValueFrom(Deciding(p, rows, name), name) == ValueFrom(Setting(p, rows, name), name)
  }

  /** The audit of a record against the effective record. */
  ghost predicate Matches(audit: Audit, r: Record) {
    && audit.providers == r.providers
    && (forall name :: name in audit.attributeWinners <==> Mentions(r.attributes, name))
    && (forall name :: name in audit.attributeWinners ==>
         Lookup(audit.attributeWinners[name].attributes, name) == Lookup(r.attributes, name))
  }

  /**
   The audit's attribute winners are always the attributes of the effective record, and its providers the
   contributing ones. A winner supplies the effective value exactly where no later restating row decides otherwise.
   That condition refers to the merge's own record; what a caller can check beforehand is its special case, that no
   row repeats a name.
   */
  lemma AuditAgrees(p: Profile, rows: seq<Row>, audit: Audit)
    requires Describes(p, rows, audit)
    ensures audit.providers == RecordOf(p, rows).providers
    ensures forall name :: name in audit.attributeWinners <==> Mentions(RecordOf(p, rows).attributes, name)
    ensures forall name :: name in audit.attributeWinners ==>
      (Lookup(audit.attributeWinners[name].attributes, name) == Lookup(RecordOf(p, rows).attributes, name) <==> SameValue(p, rows, name))
    ensures Matches(audit, RecordOf(p, rows)) <==> forall name :: SameValue(p, rows, name)
    ensures AllUnique(rows) ==> forall name :: SameValue(p, rows, name)
  {
    MergedProviders(p, rows);
    forall name
      ensures name in audit.attributeWinners <==> Mentions(RecordOf(p, rows).attributes, name)
      ensures name in audit.attributeWinners ==>
        (Lookup(audit.attributeWinners[name].attributes, name) == Lookup(RecordOf(p, rows).attributes, name) <==> SameValue(p, rows, name))
      ensures name !in audit.attributeWinners ==> SameValue(p, rows, name)
      ensures AllUnique(rows) ==> SameValue(p, rows, name)
    {
      AgreesAtName(p, rows, audit, name);
    }
  }

  lemma AgreesAtName(p: Profile, rows: seq<Row>, audit: Audit, name: string)
    requires Describes(p, rows, audit)
    ensures name in audit.attributeWinners <==> Mentions(RecordOf(p, rows).attributes, name)
    ensures name in audit.attributeWinners ==>
      (Lookup(audit.attributeWinners[name].attributes, name) == Lookup(RecordOf(p, rows).attributes, name) <==> SameValue(p, rows, name))
    ensures name !in audit.attributeWinners ==> SameValue(p, rows, name)
    ensures AllUnique(rows) ==> SameValue(p, rows, name)
  {
    MergedAttribute(p, rows, name);
    MergedNames(p, rows, name);
    LookupIsMention(RecordOf(p, rows).attributes, name);
    if AllUnique(rows) { UniqueNamesAgree(p, rows, name); }
    hide RecordOf, Deciding, Setting, Lookup, Mentions;
  }

  /** Two rows with the same items in another order: for the merge a restatement, for the audit a new last value. */
  lemma RepeatedNamesDisagree(p: Profile, a: Row, b: Row)
    requires a.attributes == [Attribute("x", "1"), Attribute("x", "2")] && b.attributes == [Attribute("x", "2"), Attribute("x", "1")]
    requires a.children == b.children
    ensures !SameValue(p, [a, b], "x")
  {
    assert [a, b][..1] == [a] && [a][..0] == [];
    assert Restates(RecordOf(p, [a]), b);
    LookupAt(a.attributes, 1);
    LookupAt(b.attributes, 1);
    assert Setting(p, [a], "x") == Some(a);
    DecidingLast(p, [a, b], "x");
  }

  // ----- child winners -----

  predicate InRange(cited: seq<(nat, Row)>) { forall i :: 0 <= i < |cited| ==> cited[i].0 < |cited[i].1.children| }

  /** The children that a list of citations points at. */
  function Cited(cited: seq<(nat, Row)>): seq<Element>
    requires InRange(cited)
  {
    seq(|cited|, i requires 0 <= i < |cited| => cited[i].1.children[cited[i].0])
  }

  function AllChildren(rows: seq<Row>): seq<Element> {
    if rows == [] then [] else AllChildren(rows[..|rows| - 1]) + rows[|rows| - 1].children
  }

  lemma CitedOne(row: Row)
    ensures InRange(Cite(row)) && Cited(Cite(row)) == row.children
  {
  }

  lemma {:induction false} CitedAll(rows: seq<Row>)
    ensures InRange(CiteAll(rows)) && Cited(CiteAll(rows)) == AllChildren(rows)
    decreases |rows|
  {
    if rows != [] {
      CitedAll(rows[..|rows| - 1]);
      CitedOne(rows[|rows| - 1]);
    }
  }

  /** Row `j` only restates what the rows before it merged to. */
  predicate IsRestatement(p: Profile, rows: seq<Row>, j: nat)
    requires 1 <= j < |rows|
  {
    Restates(RecordOf(p, rows[..j]), rows[j])
  }

  predicate AddsItsChildren(p: Profile, rows: seq<Row>, j: nat)
    requires 1 <= j < |rows|
  {
    rows[j].children == [] || !IsRestatement(p, rows, j)
  }

  /** No restating row has children. */
  predicate NothingRestated(p: Profile, rows: seq<Row>) { forall j :: 1 <= j < |rows| ==> AddsItsChildren(p, rows, j) }

  lemma AddsInPrefix(p: Profile, rows: seq<Row>, j: nat)
    requires 1 <= j < |rows| - 1
    ensures AddsItsChildren(p, rows, j) <==> AddsItsChildren(p, rows[..|rows| - 1], j)
  {
    hide RecordOf, Restates;
    assert rows[..|rows| - 1][..j] == rows[..j];
  }

  lemma NothingRestatedStep(p: Profile, rows: seq<Row>)
    requires |rows| > 1
    ensures NothingRestated(p, rows) <==>
      NothingRestated(p, rows[..|rows| - 1]) && AddsItsChildren(p, rows, |rows| - 1)
  {
    hide RecordOf, Restates, AddsItsChildren;
    var front := rows[..|rows| - 1];
    forall j | 1 <= j < |front| ensures AddsItsChildren(p, rows, j) <==> AddsItsChildren(p, front, j) {
      AddsInPrefix(p, rows, j);
    }
    if NothingRestated(p, front) && AddsItsChildren(p, rows, |front|) {
      forall j | 1 <= j < |rows| ensures AddsItsChildren(p, rows, j) {
        if j < |front| { assert AddsItsChildren(p, front, j); }
      }
    }
    if NothingRestated(p, rows) {
      forall j | 1 <= j < |front| ensures AddsItsChildren(p, front, j) { assert AddsItsChildren(p, rows, j); }
      assert AddsItsChildren(p, rows, |front|);
    }
  }

  lemma {:induction false} AppendedMeansAll(p: Profile, rows: seq<Row>)
    requires rows != []
    ensures |AppendedChildren(p, rows)| <= |AllChildren(rows)|
    ensures |AppendedChildren(p, rows)| == |AllChildren(rows)| <==> NothingRestated(p, rows)
    ensures NothingRestated(p, rows) ==> AppendedChildren(p, rows) == AllChildren(rows)
    decreases |rows|
  {
    var front, last := rows[..|rows| - 1], rows[|rows| - 1];
    if front == [] {
      assert AllChildren(front) == [];
    } else {
      AppendedMeansAll(p, front);
      NothingRestatedStep(p, rows);
      hide RecordOf, Restates, NothingRestated;
    }
  }

  lemma {:induction false} AllMeansLast(rows: seq<Row>)
    requires rows != []
    ensures |AllChildren(rows)| == |rows[|rows| - 1].children| <==> forall j :: 0 <= j < |rows| - 1 ==> rows[j].children == []
    ensures (forall j :: 0 <= j < |rows| - 1 ==> rows[j].children == []) ==> AllChildren(rows) == rows[|rows| - 1].children
    decreases |rows|
  {
    var front := rows[..|rows| - 1];
    if front != [] { AllMeansLast(front); }
  }

  /** When the children cited by the audit are those of the effective record. */
  ghost predicate ChildrenAgreeWhen(p: Profile, rows: seq<Row>)
    requires rows != []
  {
    var last := rows[|rows| - 1];
    if p.list == Append then
      if p.oldTable then forall j :: 0 <= j < |rows| - 1 ==> rows[j].children == [] else NothingRestated(p, rows)
    else p.oldTable || NormalizeAll(ChildSource(p, rows)) == NormalizeAll(last.children)
  }

  /**
   The audit's child winners point at the effective children, up to the order of attributes, exactly under
   `ChildrenAgreeWhen`; they do so always for old tables that do not append, and for lists that are replaced.
   */
  lemma ChildWinnersAgree(p: Profile, rows: seq<Row>, audit: Audit)
    requires Describes(p, rows, audit)
    ensures InRange(audit.childWinners)
    ensures NormalizeAll(Cited(audit.childWinners)) == NormalizeAll(RecordOf(p, rows).children) <==> ChildrenAgreeWhen(p, rows)
    ensures p.list == Replace || (p.oldTable && p.list != Append) ==> ChildrenAgreeWhen(p, rows)
  {
    var last := rows[|rows| - 1];
    CitedOne(last);
    CitedAll(rows);
    MergedChildSource(p, rows);
    AppendedMeansAll(p, rows);
    AllMeansLast(rows);
    hide RecordOf, NothingRestated, AllChildren, AppendedChildren, FirstWithChildren;
    if p.list == Append {
      assert |NormalizeAll(AllChildren(rows))| == |AllChildren(rows)|;
      assert |NormalizeAll(ChildSource(p, rows))| == |ChildSource(p, rows)|;
    }
  }

  /** Two providers with the same single child: appended once, cited twice. */
  lemma RestatedChildIsCitedTwice(p: Profile, a: Row, b: Row)
    requires !p.oldTable && p.list == Append && a.children != [] && b == a.(provider := b.provider)
    ensures !ChildrenAgreeWhen(p, [a, b])
  {
    assert [a, b][..1] == [a];
    assert IsRestatement(p, [a, b], 1);
    assert !AddsItsChildren(p, [a, b], 1);
  }

  // ----- the audit's loops -----

  method KeepOnePerProvider(p: Profile, raw: seq<Row>) returns (items: seq<Row>)
    ensures items == FirstPerProvider(p, raw)
  {
    var seen: set<string> := {};
    items := [];
    assert raw[..0] == [];
    var i := 0;
    while i < |raw|
      invariant 0 <= i <= |raw| && items == FirstPerProvider(p, raw[..i])
      invariant forall provider :: provider in seen <==> HasProvider(p, raw[..i], provider)
    {
      var c := raw[i];
      assert raw[..i + 1] == raw[..i] + [c];
      FirstPerProviderStep(p, raw[..i], c);
      forall provider { HasProviderStep(p, raw[..i], c, provider); }
      hide HasProvider, FirstPerProvider;
      if p.fold(c.provider) !in seen {
        seen := seen + {p.fold(c.provider)};
        items := items + [c];
      }
      i := i + 1;
    }
    assert raw[..|raw|] == raw;
  }

  /** Which names a list of attributes mentions, one at a time. */
  lemma MentionsStep(a: seq<Attribute>, x: Attribute, name: string)
    ensures Mentions(a + [x], name) <==> Mentions(a, name) || x.name == name
  {
    assert (a + [x])[..|a|] == a;
  }

  /** `for name in _attribute_map(item): attribute_winners[name] = item`. */
  method WinNames(winners: map<string, Row>, item: Row) returns (r: map<string, Row>)
    ensures forall name :: name in r <==> name in winners || Mentions(item.attributes, name)
    ensures forall name :: name in r ==> r[name] == if Mentions(item.attributes, name) then item else winners[name]
  {
    r := winners;
    var a := item.attributes;
    assert a[..0] == [];
    var i := 0;
    while i < |a|
      invariant 0 <= i <= |a|
      invariant forall name :: name in r <==> name in winners || Mentions(a[..i], name)
      invariant forall name :: name in r ==> r[name] == if Mentions(a[..i], name) then item else winners[name]
    {
      assert a[..i + 1] == a[..i] + [a[i]];
      forall name { MentionsStep(a[..i], a[i], name); }
      hide Mentions;
      r := r[a[i].name := item];
      i := i + 1;
    }
    assert a[..|a|] == a;
  }

  lemma LastMentioningStep(rows: seq<Row>, c: Row, name: string)
    ensures LastMentioning([], name) == None
    ensures LastMentioning(rows + [c], name) == if Mentions(c.attributes, name) then Some(c) else LastMentioning(rows, name)
  {
    assert (rows + [c])[..|rows|] == rows;
  }

  method WinAttributes(p: Profile, items: seq<Row>) returns (winners: map<string, Row>)
    requires items != []
    ensures Wins(p, items, winners)
  {
    if p.oldTable {
      var last := items[|items| - 1];
      winners := WinNames(map[], last);
      forall name { DecidingLast(p, items, name); }
      return;
    }
    winners := map[];
    assert items[..0] == [];
    var i := 0;
    while i < |items|
      invariant 0 <= i <= |items|
      invariant forall name ::
        LastMentioning(items[..i], name) == if name in winners then Some(winners[name]) else None
    {
      assert items[..i + 1] == items[..i] + [items[i]];
      forall name { LastMentioningStep(items[..i], items[i], name); }
      hide LastMentioning, Mentions;
      winners := WinNames(winners, items[i]);
      i := i + 1;
    }
    assert items[..|items|] == items;
  }

  method CiteChildren(p: Profile, items: seq<Row>) returns (cited: seq<(nat, Row)>)
    requires items != []
    ensures cited == if p.list == Append then CiteAll(items) else Cite(items[|items| - 1])
  {
    if p.list != Append {
      return Cite(items[|items| - 1]);
    }
    cited := [];
    assert items[..0] == [];
    var i := 0;
    while i < |items|
      invariant 0 <= i <= |items| && cited == CiteAll(items[..i])
    {
      assert items[..i + 1][..i] == items[..i];
      ghost var before := cited;
      var k := 0;
      while k < |items[i].children|
        invariant 0 <= k <= |items[i].children| && cited == before + Cite(items[i])[..k]
      {
        cited := cited + [(k, items[i])];
        k := k + 1;
      }
      i := i + 1;
    }
    assert items[..|items|] == items;
  }

  /** The body of the loop over the groups. */
  method AuditRecord(p: Profile, raw: seq<Row>) returns (audit: Audit)
    requires FirstPerProvider(p, raw) != []
    ensures Describes(p, FirstPerProvider(p, raw), audit)
  {
    hide *;
    var items := KeepOnePerProvider(p, raw);
    var winners := WinAttributes(p, items);
    var cited := CiteChildren(p, items);
    audit := Audit(items[|items| - 1], winners, cited, Providers(items));
    DescribesParts(p, items, audit);
  }

  lemma DescribesParts(p: Profile, rows: seq<Row>, audit: Audit)
    requires rows != [] && audit.winner == rows[|rows| - 1] && audit.providers == Providers(rows)
    requires Wins(p, rows, audit.attributeWinners)
    requires audit.childWinners == if p.list == Append then CiteAll(rows) else Cite(rows[|rows| - 1])
    ensures Describes(p, rows, audit)
  {
  }

  /** The dictionary that groups the rows by key. */
  ghost predicate Grouped(p: Profile, cs: seq<Row>, grouped: map<Key, seq<Row>>) {
    forall key :: if key in grouped then grouped[key] == GroupOf(p, cs, key) != [] else GroupOf(p, cs, key) == []
  }

  lemma GroupStep(p: Profile, cs: seq<Row>, c: Row, grouped: map<Key, seq<Row>>)
    requires Grouped(p, cs, grouped)
    ensures var key := KeyOf(p, c);
      Grouped(p, cs + [c],
        if key.None? then grouped
        else grouped[key.value := (if key.value in grouped then grouped[key.value] else []) + [c]])
  {
    hide KeyOf;
    forall key ensures GroupOf(p, cs + [c], key) == GroupOf(p, cs, key) + if KeyOf(p, c) == Some(key) then [c] else [] {
      assert (cs + [c])[..|cs|] == cs;
    }
    hide GroupOf;
    forall key ensures GroupOf(p, cs, key) + [] == GroupOf(p, cs, key) {}
  }

  method GroupRows(p: Profile, cs: seq<Row>) returns (grouped: map<Key, seq<Row>>)
    ensures Grouped(p, cs, grouped)
  {
    grouped := map[];
    assert cs[..0] == [];
    assert Grouped(p, [], grouped);
    hide *;
    var i := 0;
    while i < |cs|
      invariant 0 <= i <= |cs| && Grouped(p, cs[..i], grouped)
    {
      var c := cs[i];
      assert cs[..i + 1] == cs[..i] + [c];
      GroupStep(p, cs[..i], c, grouped);
      var key := KeyOf(p, c);
      if key.Some? {
        var group := if key.value in grouped then grouped[key.value] else [];
        grouped := grouped[key.value := group + [c]];
      }
      i := i + 1;
    }
    assert cs[..|cs|] == cs;
  }

  lemma GroupCounts(p: Profile, cs: seq<Row>, grouped: map<Key, seq<Row>>, key: Key)
    requires Grouped(p, cs, grouped)
    ensures key in grouped <==> RowsOf(p, cs, key) != []
    ensures key in grouped ==> FirstPerProvider(p, grouped[key]) == RowsOf(p, cs, key)
  {
    GroupedRowsCount(p, cs, key);
    if GroupOf(p, cs, key) != [] { SomeFirst(p, GroupOf(p, cs, key)); }
  }

  lemma {:induction false} SomeFirst(p: Profile, raw: seq<Row>)
    requires raw != []
    ensures FirstPerProvider(p, raw) != []
    decreases |raw|
  {
    if |raw| > 1 { SomeFirst(p, raw[..|raw| - 1]); }
  }

  /** `_record_audits`: one audit for each effective record, about the rows that the merge counts for it. */
  method RecordAudits(p: Profile, cs: seq<Row>) returns (audits: map<Key, Audit>)
    ensures forall key :: key in audits <==> key in KeysIn(p, cs)
    ensures forall key :: key in audits ==> Describes(p, RowsOf(p, cs, key), audits[key])
  {
    hide *;
    var grouped := GroupRows(p, cs);
    audits := map[];
    var todo := grouped.Keys;
    while todo != {}
      invariant todo <= grouped.Keys
      invariant forall key :: key in audits <==> key in grouped && key !in todo
      invariant forall key :: key in audits ==> Describes(p, RowsOf(p, cs, key), audits[key])
      decreases |todo|
    {
      var key :| key in todo;
      GroupCounts(p, cs, grouped, key);
      var audit := AuditRecord(p, grouped[key]);
      audits := audits[key := audit];
      todo := todo - {key};
    }
    forall key ensures key in audits <==> key in KeysIn(p, cs) {
      GroupCounts(p, cs, grouped, key);
      SomeRowCounts(p, cs, key);
    }
  }

  // ----- the merge and the audit of one table -----

  lemma {:induction false} CountedAreRows(p: Profile, cs: seq<Row>, key: Key)
    requires AllUnique(cs)
    ensures AllUnique(RowsOf(p, cs, key))
    decreases |cs|
  {
    hide UniqueNames, Counts, KeyOf;
    if cs != [] { CountedAreRows(p, cs[..|cs| - 1], key); }
  }

  /** Every effective record has an audit, and where no row repeats a name they match. */
  lemma EveryRecordIsAudited(p: Profile, cs: seq<Row>, audits: map<Key, Audit>, i: nat)
    requires forall key :: key in audits <==> key in KeysIn(p, cs)
    requires forall key :: key in audits ==> Describes(p, RowsOf(p, cs, key), audits[key])
    requires i < |KeysIn(p, cs)|
    ensures var key := KeysIn(p, cs)[i];
      && key in audits && RowsOf(p, cs, key) != []
      && (Matches(audits[key], Effective(p, cs)[i]) <==> forall name :: SameValue(p, RowsOf(p, cs, key), name))
      && (AllUnique(cs) ==> Matches(audits[key], Effective(p, cs)[i]))
  {
    var key := KeysIn(p, cs)[i];
    SomeRowCounts(p, cs, key);
    AuditAgrees(p, RowsOf(p, cs, key), audits[key]);
    assert Effective(p, cs)[i] == RecordOf(p, RowsOf(p, cs, key));
    if AllUnique(cs) { CountedAreRows(p, cs, key); }
    hide KeysIn, RowsOf, RecordOf, Matches, SameValue, Describes, AllUnique;
  }

  /** The merge of a table and the audit of the same rows: as many audits as records, each matching its record. */
  method MergeAndAudit(p: Profile, cs: seq<Row>, codes: array<seq<Reason>>)
    returns (result: seq<Record>, audits: map<Key, Audit>)
    requires codes.Length == |cs|
    modifies codes
    ensures result == Effective(p, cs) && |result| == |KeysIn(p, cs)| && audits.Keys == set key | key in KeysIn(p, cs)
    ensures forall i :: 0 <= i < |result| ==> KeysIn(p, cs)[i] in audits
    ensures AllUnique(cs) ==> forall i :: 0 <= i < |result| ==> Matches(audits[KeysIn(p, cs)[i]], result[i])
  {
    hide *;
    var reasons;
    result, reasons := MergeEffectiveRecords(p, cs, codes);
    audits := RecordAudits(p, cs);
    forall i | 0 <= i < |KeysIn(p, cs)|
      ensures KeysIn(p, cs)[i] in audits && (AllUnique(cs) ==> Matches(audits[KeysIn(p, cs)[i]], Effective(p, cs)[i]))
    {
      EveryRecordIsAudited(p, cs, audits, i);
    }
  }
}
