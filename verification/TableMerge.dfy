/**
 The in-place merge of table rows over the providers in load order, proved against the rows that count for each
 key and what a further row makes of a record. Attribute names may repeat in a row, since the parser keeps the local
 parts of namespaced names.
 */
module TableMerge {
  import opened Wrappers

  datatype Attribute = Attribute(name: string, value: string)
  datatype Element = Element(tag: string, attributes: seq<Attribute>, text: Option<string>, children: seq<Element>)

  /** An element up to the order of attributes; sorting by name and value keeps exactly this. */
  datatype Normal = Normal(tag: string, attributes: multiset<Attribute>, text: Option<string>, children: seq<Normal>)

  function Normalize(e: Element): Normal { Normal(e.tag, multiset(e.attributes), e.text, NormalizeAll(e.children)) }

  function NormalizeAll(es: seq<Element>): (r: seq<Normal>)
    ensures |r| == |es| && forall i :: 0 <= i < |es| ==> r[i] == Normalize(es[i])
  {
    if es == [] then [] else [Normalize(es[0])] + NormalizeAll(es[1..])
  }

  datatype ListBehavior = Append | Replace | PerItemPatch | UnknownList | NotApplicable

  /** A supported profile. Names compare by `fold`, unless the table is case sensitive. */
  datatype Profile = Profile(oldTable: bool, list: ListBehavior, caseSensitive: bool, fold: string -> string)

  /** The names and values of the primary keys that a row has. */
  datatype Key = Key(parts: seq<(string, string)>)

  datatype Reason = MissingPrimaryKey | AmbiguousDuplicate | FullRowRequired | ChildSemanticsUnproven

  datatype Row = Row(provider: string, recordKey: Key, attributes: seq<Attribute>, children: seq<Element>)

  /** An effective record. It is resolved as long as it has no reasons. */
  datatype Record = Record(
    recordKey: Key, attributes: seq<Attribute>, children: seq<Element>, providers: seq<string>, reasons: seq<Reason>)

  // ----- attributes -----

  predicate UniqueNames(a: seq<Attribute>) { forall i, j :: 0 <= i < j < |a| ==> a[i].name != a[j].name }

  /** `_attribute_map`, at one name. */
  function Lookup(a: seq<Attribute>, name: string): (r: Option<string>)
    ensures r.Some? ==> Attribute(name, r.value) in a
    ensures r.None? ==> forall v :: Attribute(name, v) !in a
  {
    if a == [] then None
    else if a[|a| - 1].name == name then Some(a[|a| - 1].value)
    else Lookup(a[..|a| - 1], name)
  }

  predicate Mentions(a: seq<Attribute>, name: string) { Lookup(a, name).Some? }

  lemma LookupIsMembership(a: seq<Attribute>, name: string, value: string)
    requires UniqueNames(a)
    ensures Lookup(a, name) == Some(value) <==> Attribute(name, value) in a
  {
  }

  lemma SameItemsSameLookup(a: seq<Attribute>, b: seq<Attribute>, name: string)
    requires UniqueNames(a) && UniqueNames(b) && multiset(a) == multiset(b)
    ensures Lookup(a, name) == Lookup(b, name)
  {
    forall x ensures x in a <==> x in b { assert x in multiset(a) <==> x in multiset(b); }
    if Lookup(a, name).Some? { LookupIsMembership(b, name, Lookup(a, name).value); }
  }

  /** The same items mention the same names, in whatever order and however often. */
  lemma SameItemsSameMentions(a: seq<Attribute>, b: seq<Attribute>, name: string)
    requires multiset(a) == multiset(b)
    ensures Mentions(a, name) <==> Mentions(b, name)
  {
    forall x ensures x in a <==> x in b { assert x in multiset(a) <==> x in multiset(b); }
  }

  /** The index of the item that a dictionary by name keeps. */
  function LastIndex(a: seq<Attribute>, name: string): (k: nat)
    requires Mentions(a, name)
    ensures k < |a| && a[k] == Attribute(name, Lookup(a, name).value)
    ensures forall j :: k < j < |a| ==> a[j].name != name
  {
    if a[|a| - 1].name == name then |a| - 1 else LastIndex(a[..|a| - 1], name)
  }

  lemma {:induction false} LookupAt(a: seq<Attribute>, k: nat)
    requires k < |a| && forall j :: k < j < |a| ==> a[j].name != a[k].name
    ensures Lookup(a, a[k].name) == Some(a[k].value)
    decreases |a|
  {
    if k < |a| - 1 { LookupAt(a[..|a| - 1], k); }
  }

  lemma {:induction false} LookupConcat(a: seq<Attribute>, b: seq<Attribute>, name: string)
    ensures Lookup(a + b, name) == if Mentions(b, name) then Lookup(b, name) else Lookup(a, name)
    decreases |b|
  {
    if b == [] {
      assert a + b == a;
    } else {
      var front := b[..|b| - 1];
      assert (a + b)[..|a + b| - 1] == a + front;
      LookupConcat(a, front, name);
    }
  }

  lemma Mentioned(a: seq<Attribute>, i: nat)
    requires i < |a|
    ensures Mentions(a, a[i].name)
  {
    assert a[i] == Attribute(a[i].name, a[i].value);
  }

  /** The attributes of `prev` with the values that `cur` gives them, followed by those `cur` adds. */
  function Patched(prev: seq<Attribute>, cur: seq<Attribute>): seq<Attribute> {
    Overwritten(prev, cur) + Added(prev, cur)
  }

  /** Where a name is repeated, only its last item is overwritten. */
  function Overwritten(prev: seq<Attribute>, cur: seq<Attribute>): (r: seq<Attribute>)
    ensures |r| == |prev| && forall i :: 0 <= i < |prev| ==> r[i].name == prev[i].name
  {
    seq(|prev|, i requires 0 <= i < |prev| => OverwrittenAt(prev, cur, i))
  }

  function OverwrittenAt(prev: seq<Attribute>, cur: seq<Attribute>, i: nat): (x: Attribute)
    requires i < |prev|
    ensures x.name == prev[i].name
  {
    Mentioned(prev, i);
    if Mentions(cur, prev[i].name) && i == LastIndex(prev, prev[i].name)
    then Attribute(prev[i].name, Lookup(cur, prev[i].name).value) else prev[i]
  }

  function Added(prev: seq<Attribute>, cur: seq<Attribute>): seq<Attribute> {
    if cur == [] then []
    else Added(prev, cur[..|cur| - 1]) + if Mentions(prev, cur[|cur| - 1].name) then [] else [cur[|cur| - 1]]
  }

  lemma {:induction false} AddedLookup(prev: seq<Attribute>, cur: seq<Attribute>, name: string)
    ensures Lookup(Added(prev, cur), name) == if Mentions(prev, name) then None else Lookup(cur, name)
    decreases |cur|
  {
    if cur != [] {
      var front, last := cur[..|cur| - 1], cur[|cur| - 1];
      AddedLookup(prev, front, name);
      if !Mentions(prev, last.name) {
        assert (Added(prev, front) + [last])[..|Added(prev, front)|] == Added(prev, front);
      } else {
        assert Added(prev, front) + [] == Added(prev, front);
      }
    }
  }

  lemma OverwrittenLookup(prev: seq<Attribute>, cur: seq<Attribute>, name: string)
    ensures Lookup(Overwritten(prev, cur), name) ==
      if !Mentions(prev, name) then None else if Mentions(cur, name) then Lookup(cur, name) else Lookup(prev, name)
  {
    var r := Overwritten(prev, cur);
    if Mentions(prev, name) {
      var k := LastIndex(prev, name);
      LookupAt(r, k);
    } else {
      forall i | 0 <= i < |r| ensures r[i].name != name { Mentioned(prev, i); }
    }
  }

  /** After a patch a name has the new value where there is one, and the old one otherwise. */
  lemma PatchedLookup(prev: seq<Attribute>, cur: seq<Attribute>, name: string)
    ensures Lookup(Patched(prev, cur), name) == if Mentions(cur, name) then Lookup(cur, name) else Lookup(prev, name)
  {
    LookupConcat(Overwritten(prev, cur), Added(prev, cur), name);
    OverwrittenLookup(prev, cur, name);
    AddedLookup(prev, cur, name);
    hide Overwritten, Added;
  }

  lemma {:induction false} AddedAreUnique(prev: seq<Attribute>, cur: seq<Attribute>)
    requires UniqueNames(cur)
    ensures UniqueNames(Added(prev, cur)) && forall x :: x in Added(prev, cur) ==> x in cur && !Mentions(prev, x.name)
    decreases |cur|
  {
    if cur != [] { AddedAreUnique(prev, cur[..|cur| - 1]); }
  }

  lemma PatchedIsUnique(prev: seq<Attribute>, cur: seq<Attribute>)
    requires UniqueNames(prev) && UniqueNames(cur)
    ensures UniqueNames(Patched(prev, cur))
  {
    var kept, more := Overwritten(prev, cur), Added(prev, cur);
    AddedAreUnique(prev, cur);
    forall i, j | 0 <= i < |kept| && 0 <= j < |more| ensures kept[i].name != more[j].name {
      assert more[j] in more;
      Mentioned(prev, i);
    }
  }

  // ----- the rows that count -----

  function KeyOf(p: Profile, c: Row): Option<Key> {
    var parts := c.recordKey.parts;
    if parts == [] then None
    else if p.caseSensitive then Some(c.recordKey)
    else Some(Key(seq(|parts|, i requires 0 <= i < |parts| => (p.fold(parts[i].0), p.fold(parts[i].1)))))
  }

  predicate Has(p: Profile, cs: seq<Row>, provider: string, key: Key) {
    exists i :: 0 <= i < |cs| && p.fold(cs[i].provider) == provider && KeyOf(p, cs[i]) == Some(key)
  }

  /** Row `c`, coming after `cs`, is the first its provider has for its key. */
  predicate Counts(p: Profile, cs: seq<Row>, c: Row) {
    KeyOf(p, c).Some? && !Has(p, cs, p.fold(c.provider), KeyOf(p, c).value)
  }

  /** The rows that count for `key`, in load order. */
  function RowsOf(p: Profile, cs: seq<Row>, key: Key): seq<Row> {
    if cs == [] then []
    else
      var front, last := cs[..|cs| - 1], cs[|cs| - 1];
      RowsOf(p, front, key) + if KeyOf(p, last) == Some(key) && Counts(p, front, last) then [last] else []
  }

  /** The keys in the order in which they are first seen. */
  function KeysIn(p: Profile, cs: seq<Row>): seq<Key> {
    if cs == [] then []
    else
      var front, last := KeysIn(p, cs[..|cs| - 1]), KeyOf(p, cs[|cs| - 1]);
      if last.None? || last.value in front then front else front + [last.value]
  }

  lemma {:induction false} SomeRowCounts(p: Profile, cs: seq<Row>, key: Key)
    ensures RowsOf(p, cs, key) != [] <==> key in KeysIn(p, cs)
    decreases |cs|
  {
    if cs != [] {
      var front, last := cs[..|cs| - 1], cs[|cs| - 1];
      SomeRowCounts(p, front, key);
      if KeyOf(p, last) == Some(key) && !Counts(p, front, last) { KeyIsSeen(p, front, p.fold(last.provider), key); }
    }
  }

  /** The index of the first row with a key. */
  function FirstRow(p: Profile, cs: seq<Row>, key: Key): (i: nat)
    ensures i <= |cs| && forall j :: 0 <= j < i ==> KeyOf(p, cs[j]) != Some(key)
    ensures i < |cs| ==> KeyOf(p, cs[i]) == Some(key)
  {
    if cs == [] then 0
    else
      var front := FirstRow(p, cs[..|cs| - 1], key);
      if front < |cs| - 1 || KeyOf(p, cs[|cs| - 1]) == Some(key) then front else |cs|
  }

  /** The keys are exactly those of some row, without repetition, by first row. */
  lemma {:induction false} KeysInFirstSeenOrder(p: Profile, cs: seq<Row>)
    ensures forall k :: k in KeysIn(p, cs) <==> FirstRow(p, cs, k) < |cs|
    ensures forall i, j :: 0 <= i < j < |KeysIn(p, cs)| ==> FirstRow(p, cs, KeysIn(p, cs)[i]) < FirstRow(p, cs, KeysIn(p, cs)[j])
    decreases |cs|
  {
    if cs != [] {
      var front, last := cs[..|cs| - 1], cs[|cs| - 1];
      KeysInFirstSeenOrder(p, front);
      hide KeyOf;
    }
  }

  lemma KeyIsSeen(p: Profile, cs: seq<Row>, provider: string, key: Key)
    requires Has(p, cs, provider, key)
    ensures key in KeysIn(p, cs)
  {
    KeysInFirstSeenOrder(p, cs);
  }

  // ----- one record -----

  predicate SamePayload(attributes: seq<Attribute>, children: seq<Element>, c: Row) {
    multiset(attributes) == multiset(c.attributes) && NormalizeAll(children) == NormalizeAll(c.children)
  }

  predicate Restates(r: Record, c: Row) { SamePayload(r.attributes, r.children, c) }

  predicate DropsName(prev: seq<Attribute>, cur: seq<Attribute>) {
    exists i :: 0 <= i < |prev| && !Mentions(cur, prev[i].name)
  }

  function MergedChildren(p: Profile, before: seq<Element>, now: seq<Element>): seq<Element> {
    match p.list
    case Append => before + now
    case Replace => now
    case PerItemPatch => if before == [] then now else before
    case _ => before
  }

  /** The reason a row gives for leaving its record unresolved. */
  function Complaint(p: Profile, r: Record, c: Row): seq<Reason> {
    if Restates(r, c) then []
    else if p.oldTable then if DropsName(r.attributes, c.attributes) then [FullRowRequired] else []
    else match p.list
      case PerItemPatch => if r.children != [] && c.children != [] then [ChildSemanticsUnproven] else []
      case UnknownList => if r.children != [] || c.children != [] then [ChildSemanticsUnproven] else []
      case NotApplicable => if r.children != [] || c.children != [] then [ChildSemanticsUnproven] else []
      case _ => []
  }

  /** A further row of a record. A row that restates the record only adds its provider. */
  function Apply(p: Profile, r: Record, c: Row): Record {
    if Restates(r, c) then r.(providers := r.providers + [c.provider])
    else
      Record(r.recordKey,
             if p.oldTable then c.attributes else Patched(r.attributes, c.attributes),
             if p.oldTable then c.children else MergedChildren(p, r.children, c.children),
             r.providers + [c.provider],
             r.reasons + Complaint(p, r, c))
  }

  function RecordOf(p: Profile, rows: seq<Row>): Record
    requires rows != []
  {
    var last := rows[|rows| - 1];
    if |rows| == 1 then Record(last.recordKey, last.attributes, last.children, [last.provider], [])
    else Apply(p, RecordOf(p, rows[..|rows| - 1]), last)
  }

  /** The effective records: one for each key, in the order of their first rows. */
  function Effective(p: Profile, cs: seq<Row>): (r: seq<Record>)
    ensures |r| == |KeysIn(p, cs)|
  {
    seq(|KeysIn(p, cs)|, i requires 0 <= i < |KeysIn(p, cs)| =>
      SomeRowCounts(p, cs, KeysIn(p, cs)[i]); RecordOf(p, RowsOf(p, cs, KeysIn(p, cs)[i])))
  }

  /** What row `i` is charged with. */
  function ChargesOf(p: Profile, cs: seq<Row>, i: nat): seq<Reason>
    requires i < |cs|
  {
    var key := KeyOf(p, cs[i]);
    if key.None? then []
    else if !Counts(p, cs[..i], cs[i]) then [AmbiguousDuplicate]
    else if RowsOf(p, cs[..i], key.value) == [] then []
    else Complaint(p, RecordOf(p, RowsOf(p, cs[..i], key.value)), cs[i])
  }

  /** What row `i` adds to the reasons of the whole merge. */
  function RaisedBy(p: Profile, cs: seq<Row>, i: nat): seq<Reason>
    requires i < |cs|
  {
    if KeyOf(p, cs[i]).None? then [MissingPrimaryKey] else ChargesOf(p, cs, i)
  }

  // ----- the merge -----

  lemma AddedStep(prev: seq<Attribute>, before: seq<Attribute>, item: Attribute)
    ensures Added(prev, before + [item]) == Added(prev, before) + if Mentions(prev, item.name) then [] else [item]
    ensures forall n :: Lookup(before + [item], n) == if n == item.name then Some(item.value) else Lookup(before, n)
  {
    assert (before + [item])[..|before|] == before;
  }

  lemma OverwriteStep(prev: seq<Attribute>, before: seq<Attribute>, item: Attribute)
    requires Mentions(prev, item.name)
    ensures Overwritten(prev, before + [item]) == Overwritten(prev, before)[LastIndex(prev, item.name) := item]
  {
    AddedStep(prev, before, item);
    var k := LastIndex(prev, item.name);
    var r, was := Overwritten(prev, before + [item]), Overwritten(prev, before);
    hide Lookup, Added;
    forall i | 0 <= i < |prev| ensures r[i] == was[k := item][i] {
      Mentioned(prev, i);
    }
  }

  lemma NoOverwrite(prev: seq<Attribute>, before: seq<Attribute>, item: Attribute)
    requires !Mentions(prev, item.name)
    ensures Overwritten(prev, before + [item]) == Overwritten(prev, before)
  {
    AddedStep(prev, before, item);
    hide Added;
    forall i | 0 <= i < |prev| ensures OverwrittenAt(prev, before + [item], i) == OverwrittenAt(prev, before, i) {
      Mentioned(prev, i);
    }
  }

  lemma PatchStepAt(prev: seq<Attribute>, before: seq<Attribute>, item: Attribute)
    requires Mentions(prev, item.name)
    ensures Patched(prev, before + [item]) == Patched(prev, before)[LastIndex(prev, item.name) := item]
  {
    AddedStep(prev, before, item);
    OverwriteStep(prev, before, item);
    UpdateFront(Overwritten(prev, before), Added(prev, before), LastIndex(prev, item.name), item);
    hide Overwritten, Added, Lookup;
    assert Added(prev, before + [item]) == Added(prev, before);
  }

  lemma UpdateFront(a: seq<Attribute>, b: seq<Attribute>, k: nat, item: Attribute)
    requires k < |a|
    ensures (a + b)[k := item] == a[k := item] + b
  {
  }

  lemma PatchStepNew(prev: seq<Attribute>, before: seq<Attribute>, item: Attribute)
    requires !Mentions(prev, item.name)
    ensures Patched(prev, before + [item]) == Patched(prev, before) + [item]
  {
    AddedStep(prev, before, item);
    NoOverwrite(prev, before, item);
    hide Overwritten, Added, Mentions, UniqueNames, Lookup;
    assert (Overwritten(prev, before) + Added(prev, before)) + [item] == Overwritten(prev, before) + (Added(prev, before) + [item]);
  }

  lemma PatchNothing(prev: seq<Attribute>)
    ensures Patched(prev, []) == prev
  {
  }

  /** The loop that overwrites and appends attributes. */
  method PatchAttributes(prev: seq<Attribute>, cur: seq<Attribute>) returns (r: seq<Attribute>)
    ensures r == Patched(prev, cur)
  {
    hide *;
    r := prev;
    PatchNothing(prev);
    var i := 0;
    assert cur[..0] == [];
    while i < |cur|
      invariant 0 <= i <= |cur|
      invariant r == Patched(prev, cur[..i]) && |prev| <= |r|
    {
      var item := cur[i];
      assert cur[..i + 1] == cur[..i] + [item];
      if Mentions(prev, item.name) {
        PatchStepAt(prev, cur[..i], item);
        r := r[LastIndex(prev, item.name) := item];
      } else {
        PatchStepNew(prev, cur[..i], item);
        r := r + [item];
      }
      i := i + 1;
    }
    assert cur[..|cur|] == cur;
  }

  /** The branches for a further row of a known key. */
  method MergeRow(p: Profile, r: Record, c: Row) returns (merged: Record, charge: seq<Reason>)
    ensures merged == Apply(p, r, c) && charge == Complaint(p, r, c)
  {
    hide UniqueNames, Patched, NormalizeAll;
    charge := [];
    var providers := r.providers + [c.provider];
    if Restates(r, c) {
      return r.(providers := providers), [];
    }
    if p.oldTable {
      if DropsName(r.attributes, c.attributes) { charge := [FullRowRequired]; }
      return Record(r.recordKey, c.attributes, c.children, providers, r.reasons + charge), charge;
    }
    var attributes := PatchAttributes(r.attributes, c.attributes);
    var children := r.children;
    if p.list == Append {
      children := r.children + c.children;
    } else if p.list == Replace {
      children := c.children;
    } else if c.children != [] && r.children != [] && p.list == PerItemPatch {
      charge := [ChildSemanticsUnproven];
    } else if p.list == PerItemPatch && c.children != [] {
      children := c.children;
    } else if (p.list == UnknownList || p.list == NotApplicable) && (r.children != [] || c.children != []) {
      charge := [ChildSemanticsUnproven];
    }
    return Record(r.recordKey, attributes, children, providers, r.reasons + charge), charge;
  }

  /** The effective records and their order after the rows `cs`. */
  ghost predicate Tracks(p: Profile, cs: seq<Row>, effective: map<Key, Record>, ordering: seq<Key>) {
    && ordering == KeysIn(p, cs)
    && (forall k :: k in effective <==> k in ordering)
    && (forall k :: k in ordering ==> RowsOf(p, cs, k) != [] && effective[k] == RecordOf(p, RowsOf(p, cs, k)))
  }

  /** The pairs of provider and key that have been seen. */
  ghost predicate Seen(p: Profile, cs: seq<Row>, seen: set<(string, Key)>) {
    forall pk: (string, Key) :: pk in seen <==> Has(p, cs, pk.0, pk.1)
  }

  lemma RowsStep(p: Profile, cs: seq<Row>, c: Row, key: Key)
    ensures RowsOf(p, cs + [c], key) == RowsOf(p, cs, key) + if KeyOf(p, c) == Some(key) && Counts(p, cs, c) then [c] else []
  {
    assert (cs + [c])[..|cs|] == cs;
  }

  lemma KeysStep(p: Profile, cs: seq<Row>, c: Row)
    ensures KeysIn(p, cs + [c]) == var key := KeyOf(p, c);
      if key.None? || key.value in KeysIn(p, cs) then KeysIn(p, cs) else KeysIn(p, cs) + [key.value]
  {
    assert (cs + [c])[..|cs|] == cs;
  }

  lemma HasStep(p: Profile, cs: seq<Row>, c: Row, provider: string, key: Key)
    ensures Has(p, cs + [c], provider, key) <==> Has(p, cs, provider, key) || (p.fold(c.provider) == provider && KeyOf(p, c) == Some(key))
  {
    var longer := cs + [c];
    if Has(p, cs, provider, key) {
      var i :| 0 <= i < |cs| && p.fold(cs[i].provider) == provider && KeyOf(p, cs[i]) == Some(key);
      assert longer[i] == cs[i];
    }
    if p.fold(c.provider) == provider && KeyOf(p, c) == Some(key) { assert longer[|cs|] == c; }
  }

  lemma TracksNothing(p: Profile)
    ensures Tracks(p, [], map[], []) && Seen(p, [], {})
  {
  }

  lemma SeenSkip(p: Profile, cs: seq<Row>, c: Row, seen: set<(string, Key)>)
    requires Seen(p, cs, seen) && !Counts(p, cs, c)
    ensures Seen(p, cs + [c], seen)
  {
    forall pk: (string, Key) ensures pk in seen <==> Has(p, cs + [c], pk.0, pk.1) { HasStep(p, cs, c, pk.0, pk.1); }
  }

  lemma SeenRow(p: Profile, cs: seq<Row>, c: Row, seen: set<(string, Key)>)
    requires Seen(p, cs, seen) && KeyOf(p, c).Some?
    ensures Seen(p, cs + [c], seen + {(p.fold(c.provider), KeyOf(p, c).value)})
  {
    hide Has, KeyOf;
    var seen' := seen + {(p.fold(c.provider), KeyOf(p, c).value)};
    forall pk: (string, Key) ensures pk in seen' <==> Has(p, cs + [c], pk.0, pk.1) { HasStep(p, cs, c, pk.0, pk.1); }
  }

  lemma KeysStay(p: Profile, cs: seq<Row>, c: Row)
    requires !Counts(p, cs, c)
    ensures KeysIn(p, cs + [c]) == KeysIn(p, cs)
  {
    KeysStep(p, cs, c);
    if KeyOf(p, c).Some? { KeyIsSeen(p, cs, p.fold(c.provider), KeyOf(p, c).value); }
  }

  lemma TracksSkip(p: Profile, cs: seq<Row>, c: Row, effective: map<Key, Record>, ordering: seq<Key>)
    requires Tracks(p, cs, effective, ordering) && !Counts(p, cs, c)
    ensures Tracks(p, cs + [c], effective, ordering)
  {
    KeysStay(p, cs, c);
    hide KeysIn, Has, RecordOf;
    forall k ensures RowsOf(p, cs + [c], k) == RowsOf(p, cs, k) {
      RowsStep(p, cs, c, k);
      assert RowsOf(p, cs, k) + [] == RowsOf(p, cs, k);
    }
    hide KeyOf, RowsOf, RecordOf, KeysIn, Has, Counts;
  }

  /** The record of a key after one more row. */
  function NextRecord(p: Profile, effective: map<Key, Record>, key: Key, c: Row): Record {
    if key in effective then Apply(p, effective[key], c)
    else Record(c.recordKey, c.attributes, c.children, [c.provider], [])
  }

  lemma RecordStep(p: Profile, rows: seq<Row>, c: Row)
    ensures RecordOf(p, rows + [c]) == if rows == [] then Record(c.recordKey, c.attributes, c.children, [c.provider], [])
                                       else Apply(p, RecordOf(p, rows), c)
  {
    assert (rows + [c])[..|rows|] == rows;
  }

  lemma TracksRow(p: Profile, cs: seq<Row>, c: Row, key: Key, effective: map<Key, Record>, ordering: seq<Key>, ordering': seq<Key>)
    requires Tracks(p, cs, effective, ordering) && Counts(p, cs, c) && KeyOf(p, c) == Some(key)
    requires ordering' == if key in effective then ordering else ordering + [key]
    ensures Tracks(p, cs + [c], effective[key := NextRecord(p, effective, key, c)], ordering')
  {
    hide KeyOf, RowsOf, RecordOf, KeysIn, Has, Apply, Counts, NextRecord, Lookup, UniqueNames;
    RowGrows(p, cs, c);
    assert KeysIn(p, cs + [c]) == ordering';
    NewRecord(p, cs, c, key, effective, ordering);
    OtherRecords(p, cs, c, key, effective, ordering);
  }

  lemma NewRecord(p: Profile, cs: seq<Row>, c: Row, key: Key, effective: map<Key, Record>, ordering: seq<Key>)
    requires Tracks(p, cs, effective, ordering) && Counts(p, cs, c) && KeyOf(p, c) == Some(key)
    ensures RowsOf(p, cs + [c], key) != [] && NextRecord(p, effective, key, c) == RecordOf(p, RowsOf(p, cs + [c], key))
  {
    RowGrows(p, cs, c);
    RecordStep(p, RowsOf(p, cs, key), c);
    NextRecordIs(p, effective, key, c);
    hide KeyOf, RowsOf, RecordOf, KeysIn, Has, Apply, Counts, NextRecord;
  }

  lemma OtherRecords(p: Profile, cs: seq<Row>, c: Row, key: Key, effective: map<Key, Record>, ordering: seq<Key>)
    requires Tracks(p, cs, effective, ordering) && KeyOf(p, c) == Some(key)
    ensures forall k :: k in ordering && k != key ==>
      RowsOf(p, cs + [c], k) != [] && effective[k] == RecordOf(p, RowsOf(p, cs + [c], k))
  {
    hide KeyOf, RowsOf, RecordOf, KeysIn;
    forall k | k in ordering && k != key
      ensures RowsOf(p, cs + [c], k) != [] && effective[k] == RecordOf(p, RowsOf(p, cs + [c], k))
    {
      RowsOther(p, cs, c, k);
    }
  }

  lemma RowGrows(p: Profile, cs: seq<Row>, c: Row)
    requires Counts(p, cs, c)
    ensures var key := KeyOf(p, c).value;
      && RowsOf(p, cs + [c], key) == RowsOf(p, cs, key) + [c]
      && (RowsOf(p, cs, key) != [] <==> key in KeysIn(p, cs))
      && KeysIn(p, cs + [c]) == (if key in KeysIn(p, cs) then KeysIn(p, cs) else KeysIn(p, cs) + [key])
  {
    var key := KeyOf(p, c).value;
    KeysStep(p, cs, c);
    SomeRowCounts(p, cs, key);
    RowsStep(p, cs, c, key);
  }

  lemma RowsOther(p: Profile, cs: seq<Row>, c: Row, key: Key)
    requires KeyOf(p, c) != Some(key)
    ensures RowsOf(p, cs + [c], key) == RowsOf(p, cs, key)
  {
    RowsStep(p, cs, c, key);
  }

  function Listed(effective: map<Key, Record>, ordering: seq<Key>): seq<Record>
    requires forall k :: k in ordering ==> k in effective
  {
    seq(|ordering|, i requires 0 <= i < |ordering| => assert ordering[i] in ordering; effective[ordering[i]])
  }

  lemma TracksResult(p: Profile, cs: seq<Row>, effective: map<Key, Record>, ordering: seq<Key>)
    requires Tracks(p, cs, effective, ordering)
    ensures (forall k :: k in ordering ==> k in effective) && Listed(effective, ordering) == Effective(p, cs)
  {
    hide RecordOf, RowsOf, KeysIn;
  }

  function Distinct(rs: seq<Reason>): set<Reason> { set r | r in rs }

  /** The reasons raised by the first `n` rows. */
  function Raised(p: Profile, cs: seq<Row>, n: nat): set<Reason>
    requires n <= |cs|
  {
    if n == 0 then {} else Raised(p, cs, n - 1) + Distinct(RaisedBy(p, cs, n - 1))
  }

  lemma RaisedStep(p: Profile, cs: seq<Row>, i: nat)
    requires i < |cs|
    ensures Raised(p, cs, 0) == {} && Raised(p, cs, i + 1) == Raised(p, cs, i) + Distinct(RaisedBy(p, cs, i))
  {
  }

  /** What row `i` is charged with, from the dictionaries. */
  lemma ChargeOfRow(p: Profile, cs: seq<Row>, i: nat, effective: map<Key, Record>, ordering: seq<Key>)
    requires i < |cs| && Tracks(p, cs[..i], effective, ordering)
    ensures var c, key := cs[i], KeyOf(p, cs[i]);
      ChargesOf(p, cs, i) ==
        if key.None? then []
        else if !Counts(p, cs[..i], c) then [AmbiguousDuplicate]
        else if key.value !in effective then []
        else Complaint(p, effective[key.value], c)
  {
    hide RecordOf, Complaint, RowsOf, KeysIn;
    if KeyOf(p, cs[i]).Some? { SomeRowCounts(p, cs[..i], KeyOf(p, cs[i]).value); }
  }

  lemma RaisedByRow(p: Profile, cs: seq<Row>, i: nat)
    requires i < |cs|
    ensures Distinct(RaisedBy(p, cs, i)) ==
      if KeyOf(p, cs[i]).None? then {MissingPrimaryKey} else Distinct(ChargesOf(p, cs, i))
    ensures KeyOf(p, cs[i]).None? ==> ChargesOf(p, cs, i) == []
  {
  }

  lemma DistinctOne(r: Reason)
    ensures Distinct([]) == {} && Distinct([r]) == {r}
  {
  }

  lemma CountsMeansUnseen(p: Profile, cs: seq<Row>, c: Row, seen: set<(string, Key)>)
    requires Seen(p, cs, seen)
    ensures Counts(p, cs, c) <==> KeyOf(p, c).Some? && (p.fold(c.provider), KeyOf(p, c).value) !in seen
  {
  }

  /**
   `_merge_effective_records`: rows that are charged with a reason get it appended to their own codes, and the
   result is one record for each key, folded over the rows that count for it.
   */
  method MergeEffectiveRecords(p: Profile, cs: seq<Row>, codes: array<seq<Reason>>)
    returns (result: seq<Record>, reasons: set<Reason>)
    requires codes.Length == |cs|
    modifies codes
    ensures result == Effective(p, cs)
    ensures forall i :: 0 <= i < |cs| ==> codes[i] == old(codes[i]) + ChargesOf(p, cs, i)
    ensures reasons == Raised(p, cs, |cs|)
  {
    var effective: map<Key, Record>, ordering: seq<Key>, seen: set<(string, Key)> := map[], [], {};
    reasons := {};
    TracksNothing(p);
    hide *;
    assert cs[..0] == [];
    var i := 0;
    while i < |cs|
      invariant 0 <= i <= |cs|
      invariant Tracks(p, cs[..i], effective, ordering) && Seen(p, cs[..i], seen)
      invariant i == 0 ==> reasons == {}
      invariant i > 0 ==> reasons == Raised(p, cs, i)
      invariant forall j :: 0 <= j < i ==> codes[j] == old(codes[j]) + ChargesOf(p, cs, j)
      invariant forall j :: i <= j < |cs| ==> codes[j] == old(codes[j])
    {
      var c := cs[i];
      ghost var before := cs[..i];
      assert cs[..i + 1] == before + [c];
      var key := KeyOf(p, c);
      RaisedStep(p, cs, i);
      RaisedByRow(p, cs, i);
      ChargeOfRow(p, cs, i, effective, ordering);
      CountsMeansUnseen(p, before, c, seen);
      if key.None? {
        TracksSkip(p, before, c, effective, ordering);
        SeenSkip(p, before, c, seen);
        reasons := reasons + {MissingPrimaryKey};
      } else if (p.fold(c.provider), key.value) in seen {
        TracksSkip(p, before, c, effective, ordering);
        SeenSkip(p, before, c, seen);
        DistinctOne(AmbiguousDuplicate);
        codes[i] := codes[i] + [AmbiguousDuplicate];
        reasons := reasons + {AmbiguousDuplicate};
      } else {
        TracksRow(p, before, c, key.value, effective, ordering, if key.value in effective then ordering else ordering + [key.value]);
        NextRecordIs(p, effective, key.value, c);
        SeenRow(p, before, c, seen);
        seen := seen + {(p.fold(c.provider), key.value)};
        if key.value !in effective {
          DistinctOne(AmbiguousDuplicate);
          ordering := ordering + [key.value];
          effective := effective[key.value := Record(c.recordKey, c.attributes, c.children, [c.provider], [])];
        } else {
          var merged, charge := MergeRow(p, effective[key.value], c);
          effective := effective[key.value := merged];
          codes[i] := codes[i] + charge;
          reasons := reasons + Distinct(charge);
        }
      }
      i := i + 1;
    }
    assert cs[..|cs|] == cs;
    if cs == [] { NothingRaised(p, cs); }
    TracksResult(p, cs, effective, ordering);
    result := Listed(effective, ordering);
  }

  lemma NothingRaised(p: Profile, cs: seq<Row>)
    ensures Raised(p, cs, 0) == {}
  {
  }

  lemma NextRecordIs(p: Profile, effective: map<Key, Record>, key: Key, c: Row)
    ensures NextRecord(p, effective, key, c) ==
      if key in effective then Apply(p, effective[key], c)
      else Record(c.recordKey, c.attributes, c.children, [c.provider], [])
  {
  }
}
