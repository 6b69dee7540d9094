/**
 The exact provider refresh: a diff of one provider's rows, applied in one transaction to a table that many
 providers share, and undone from a journal of inverse operations.
 */
module ExactRefresh {
  import opened Wrappers
  import MeasuredReceipt
  import ScopeReceipt

  type Key = string
  type Provider = string

  /** A decoded JSON value, told apart by its canonical text. Floats are finite; `-0.0` has a text of its own. */
  datatype Json = Null | Bool(b: bool) | Int(n: int) | Float(r: real, minusZero: bool) | Text(s: string)
                | List(items: seq<Json>) | Object(fields: map<string, Json>)

  /** A decoded row. Its digest is case-folded. */
  datatype Row = Row(provider: Provider, digest: string, payload: Json)

  /** One provider's decoded rows. The digest of a row list is modelled by the rows themselves. */
  type Rows = map<Key, Row>

  /** A stored row: the digest as written, and the payload unless its text is not JSON with finite numbers. */
  datatype Stored = Stored(digest: string, payload: Option<Json>)

  /** The table, with its primary key. */
  type Table = map<(Provider, Key), Stored>

  datatype Action = Add | Remove | Update | Unsupported

  datatype Operation = Operation(action: Action, key: Key, before: Option<Row>, after: Option<Row>)

  // ----- what Python takes for equal -----

  /** Numbers and truth values compare by their numerical value. */
  function Number(v: Json): Option<real> {
    match v
    case Bool(b) => Some(if b then 1.0 else 0.0)
    case Int(n) => Some(n as real)
    case Float(r, _) => Some(r)
    case _ => None
  }

  /** `==` on decoded values. It is coarser than equality of canonical text. */
  predicate Alike(a: Json, b: Json)
    decreases a
  {
    if Number(a).Some? || Number(b).Some? then Number(a) == Number(b)
    else match a
      case List(xs) => b.List? && |xs| == |b.items| && forall i :: 0 <= i < |xs| ==> Alike(xs[i], b.items[i])
      case Object(fields) =>
        b.Object? && fields.Keys == b.fields.Keys && forall name :: name in fields ==> Alike(fields[name], b.fields[name])
      case _ => a == b
  }

  lemma {:induction false} AlikeReflexive(a: Json)
    ensures Alike(a, a)
    decreases a
  {
    match a
    case List(xs) => forall i | 0 <= i < |xs| ensures Alike(xs[i], xs[i]) { AlikeReflexive(xs[i]); }
    case Object(fields) => forall name | name in fields ensures Alike(fields[name], fields[name]) { AlikeReflexive(fields[name]); }
    case _ =>
  }

  lemma {:induction false} AlikeSymmetric(a: Json, b: Json)
    requires Alike(a, b)
    ensures Alike(b, a)
    decreases a
  {
    if Number(a).None? {
      match a
      case List(xs) => forall i | 0 <= i < |xs| ensures Alike(b.items[i], xs[i]) { AlikeSymmetric(xs[i], b.items[i]); }
      case Object(fields) =>
        forall name | name in fields ensures Alike(b.fields[name], fields[name]) { AlikeSymmetric(fields[name], b.fields[name]); }
      case _ =>
    }
  }

  /** `==` on rows under one key. */
  predicate SameValue(a: Row, b: Row) { a.provider == b.provider && a.digest == b.digest && Alike(a.payload, b.payload) }

  lemma SameValueIsSymmetric(a: Row, b: Row)
    ensures SameValue(a, b) <==> SameValue(b, a)
    ensures a == b ==> SameValue(a, b)
  {
    if SameValue(a, b) { AlikeSymmetric(a.payload, b.payload); }
    if SameValue(b, a) { AlikeSymmetric(b.payload, a.payload); }
    AlikeReflexive(a.payload);
  }

  // ----- reading rows -----

  /** One ligature that folds to two hexadecimal digits. */
  const LIGATURE := '\U{FB00}'

  predicate IsLowerHex(c: char) { '0' <= c <= '9' || 'a' <= c <= 'f' }

  /** The characters whose case-folded form is hexadecimal. */
  predicate FoldsToHex(c: char) { IsLowerHex(c) || 'A' <= c <= 'F' || c == LIGATURE }

  function FoldChar(c: char): string {
    if 'A' <= c <= 'Z' then [c - 'A' + 'a'] else if c == LIGATURE then "ff" else [c]
  }

  /** `casefold`, on digests. */
  function Fold(s: string): string { if s == [] then [] else FoldChar(s[0]) + Fold(s[1..]) }

  /** `_validate_sha256`: the length is that of the text as it is written. */
  predicate IsDigest(s: string) { |s| == 64 && forall i :: 0 <= i < 64 ==> FoldsToHex(s[i]) }

  predicate AllLowerHex(s: string) { forall i :: 0 <= i < |s| ==> IsLowerHex(s[i]) }

  predicate Readable(s: Stored) { IsDigest(s.digest) && s.payload.Some? }

  function Decode(provider: Provider, s: Stored): Row
    requires Readable(s)
  {
    Row(provider, Fold(s.digest), s.payload.value)
  }

  function KeysOf(t: Table, provider: Provider): set<Key> { set pk | pk in t && pk.0 == provider :: pk.1 }

  predicate AllReadable(t: Table, provider: Provider) { forall pk :: pk in t && pk.0 == provider ==> pk.1 != "" && Readable(t[pk]) }

  /** `_read_target_rows`: nothing, if any row of the provider is malformed. */
  function ReadRows(t: Table, provider: Provider): Option<Rows> {
    if AllReadable(t, provider) then
      Some(map key | key in KeysOf(t, provider) :: Decode(provider, t[(provider, key)]))
    else None
  }

  /** A row as reading the table or a record of a request gives it. */
  predicate Decoded(provider: Provider, r: Row) { r.provider == provider && AllLowerHex(r.digest) }

  predicate AllDecoded(provider: Provider, rows: Rows) { forall key :: key in rows ==> key != "" && Decoded(provider, rows[key]) }

  /** A row that survives being stored and read back. */
  predicate Storable(provider: Provider, r: Row) { r.provider == provider && IsDigest(r.digest) && Fold(r.digest) == r.digest }

  lemma {:induction false} FoldIsHex(s: string)
    requires forall i :: 0 <= i < |s| ==> FoldsToHex(s[i])
    ensures AllLowerHex(Fold(s)) && |Fold(s)| >= |s| && (|Fold(s)| == |s| <==> LIGATURE !in s)
  {
    if s != [] {
      assert s == [s[0]] + s[1..];
      FoldIsHex(s[1..]);
    }
  }

  lemma {:induction false} FoldKeepsLowerHex(s: string)
    requires AllLowerHex(s)
    ensures Fold(s) == s
  {
    if s != [] { FoldKeepsLowerHex(s[1..]); }
  }

  /** A decoded row is storable exactly if its digest has the length of one, and otherwise it cannot be read back. */
  lemma StorableMeans(provider: Provider, r: Row)
    requires Decoded(provider, r)
    ensures Storable(provider, r) <==> |r.digest| == 64
    ensures Storable(provider, r) <==> IsDigest(r.digest)
  {
    FoldKeepsLowerHex(r.digest);
    assert forall i :: 0 <= i < |r.digest| ==> FoldsToHex(r.digest[i]);
  }

  lemma StorableIsDecoded(provider: Provider, r: Row)
    requires Storable(provider, r)
    ensures Decoded(provider, r)
  {
    FoldIsHex(r.digest);
  }

  /** A row read from the table can be stored again exactly if its digest was written without the ligature. */
  lemma ReadRowsAreStorable(t: Table, provider: Provider)
    requires ReadRows(t, provider).Some?
    ensures AllDecoded(provider, ReadRows(t, provider).value)
    ensures forall key :: key in ReadRows(t, provider).value ==>
      (Storable(provider, ReadRows(t, provider).value[key]) <==> LIGATURE !in t[(provider, key)].digest)
  {
    hide IsDigest, Fold;
    var rows := ReadRows(t, provider).value;
    forall key | key in rows
      ensures Decoded(provider, rows[key]) && (Storable(provider, rows[key]) <==> LIGATURE !in t[(provider, key)].digest)
    {
      DigestFolds(t[(provider, key)].digest);
      StorableMeans(provider, rows[key]);
    }
  }

  lemma DigestFolds(s: string)
    requires IsDigest(s)
    ensures AllLowerHex(Fold(s)) && (|Fold(s)| == 64 <==> LIGATURE !in s)
  {
    FoldIsHex(s);
  }

  // ----- the diff -----

  predicate Differs(before: Rows, after: Rows, key: Key) {
    (key in before) != (key in after) || (key in before && key in after && !SameValue(before[key], after[key]))
  }

  /** Rows that Python takes for equal have one canonical text. */
  predicate Discernible(before: Rows, after: Rows) {
    forall key :: key in before && key in after && SameValue(before[key], after[key]) ==> before[key] == after[key]
  }

  function OperationFor(before: Rows, after: Rows, key: Key): Operation {
    if key !in before then Operation(Add, key, None, if key in after then Some(after[key]) else None)
    else if key !in after then Operation(Remove, key, Some(before[key]), None)
    else Operation(Update, key, Some(before[key]), Some(after[key]))
  }

  ghost predicate DiffOperations(before: Rows, after: Rows, ops: seq<Operation>) {
    && (forall i :: 0 <= i < |ops| ==> Differs(before, after, ops[i].key) && ops[i] == OperationFor(before, after, ops[i].key))
    && (forall i, j :: 0 <= i < j < |ops| ==> ops[i].key != ops[j].key)
  }

  /** Each key whose rows are not equal in value has one operation, and no other key has any. */
  ghost predicate IsDiff(before: Rows, after: Rows, ops: seq<Operation>) {
    && DiffOperations(before, after, ops)
    && (forall key :: Differs(before, after, key) ==> exists i :: 0 <= i < |ops| && ops[i].key == key)
  }

  /** `_operations`. The source goes through the keys in sorted order; no result depends on the order. */
  method Operations(before: Rows, after: Rows) returns (ops: seq<Operation>)
    ensures IsDiff(before, after, ops)
  {
    ops := [];
    var todo := before.Keys + after.Keys;
    while todo != {}
      invariant todo <= before.Keys + after.Keys && DiffOperations(before, after, ops)
      invariant forall i :: 0 <= i < |ops| ==> ops[i].key !in todo
      invariant forall key :: Differs(before, after, key) && key !in todo ==> exists i :: 0 <= i < |ops| && ops[i].key == key
      decreases todo
    {
      var key :| key in todo;
      ghost var shorter := ops;
      if key !in before {
        ops := ops + [Operation(Add, key, None, Some(after[key]))];
      } else if key !in after {
        ops := ops + [Operation(Remove, key, Some(before[key]), None)];
      } else if !SameValue(before[key], after[key]) {
        ops := ops + [Operation(Update, key, Some(before[key]), Some(after[key]))];
      }
      assert Differs(before, after, key) <==> ops != shorter;
      assert Differs(before, after, key) ==> ops == shorter + [OperationFor(before, after, key)];
      hide Differs, OperationFor;
      assert forall i :: 0 <= i < |shorter| ==> ops[i] == shorter[i];
      assert Differs(before, after, key) ==> ops[|shorter|].key == key;
      todo := todo - {key};
    }
  }

  function Invert(op: Operation): Operation {
    Operation(match op.action case Add => Remove case Remove => Add case Update => Update case Unsupported => Unsupported,
              op.key, op.after, op.before)
  }

  function InverseOf(ops: seq<Operation>): seq<Operation> {
    if ops == [] then [] else InverseOf(ops[1..]) + [Invert(ops[0])]
  }

  /** `_inverse_operations`. */
  method InverseOperations(ops: seq<Operation>) returns (inverse: seq<Operation>)
    ensures inverse == InverseOf(ops)
  {
    inverse := [];
    var i := |ops|;
    assert ops[i..] == [];
    while i > 0
      invariant 0 <= i <= |ops| && inverse == InverseOf(ops[i..])
    {
      i := i - 1;
      assert ops[i..][1..] == ops[i + 1..];
      inverse := inverse + [Invert(ops[i])];
    }
    assert ops[0..] == ops;
  }

  // ----- applying operations -----

  /** What an operation writes. */
  function Written(op: Operation): Option<Stored> {
    match op.after case None => None case Some(r) => Some(Stored(r.digest, Some(r.payload)))
  }

  /** `_apply_operation`: INSERT meets the primary key, UPDATE and DELETE must hit one row. */
  function ApplyOperation(t: Table, provider: Provider, op: Operation): Option<Table> {
    var pk := (provider, op.key);
    match op.action
    case Add => if op.after.None? || pk in t then None else Some(t[pk := Written(op).value])
    case Remove => if pk !in t then None else Some(t - {pk})
    case Update => if op.after.None? || pk !in t then None else Some(t[pk := Written(op).value])
    case Unsupported => None
  }

  function ApplyOperations(t: Table, provider: Provider, ops: seq<Operation>): Option<Table>
    decreases |ops|
  {
    if ops == [] then Some(t)
    else match ApplyOperation(t, provider, ops[0])
      case None => None
      case Some(t') => ApplyOperations(t', provider, ops[1..])
  }

  /** The same on one provider's decoded rows. */
  function ApplyToRows(rows: Rows, op: Operation): Option<Rows> {
    match op.action
    case Add => if op.after.None? || op.key in rows then None else Some(rows[op.key := op.after.value])
    case Remove => if op.key !in rows then None else Some(rows - {op.key})
    case Update => if op.after.None? || op.key !in rows then None else Some(rows[op.key := op.after.value])
    case Unsupported => None
  }

  function ApplyAllToRows(rows: Rows, ops: seq<Operation>): Option<Rows>
    decreases |ops|
  {
    if ops == [] then Some(rows)
    else match ApplyToRows(rows, ops[0])
      case None => None
      case Some(rows') => ApplyAllToRows(rows', ops[1..])
  }

  /** The rows of every other provider, stored bytes included, are the same in both tables. */
  predicate OthersSame(t: Table, t': Table, provider: Provider) {
    && (forall pk :: pk in t && pk.0 != provider ==> pk in t' && t'[pk] == t[pk])
    && (forall pk :: pk in t' && pk.0 != provider ==> pk in t)
  }

  lemma {:induction false} OperationsKeepOthers(t: Table, provider: Provider, ops: seq<Operation>)
    requires ApplyOperations(t, provider, ops).Some?
    ensures OthersSame(t, ApplyOperations(t, provider, ops).value, provider)
    decreases |ops|
  {
    if ops != [] { OperationsKeepOthers(ApplyOperation(t, provider, ops[0]).value, provider, ops[1..]); }
  }

  /** Other providers' rows read the same in tables that agree on them. */
  lemma OthersReadSame(t: Table, t': Table, provider: Provider, other: Provider)
    requires OthersSame(t, t', provider) && other != provider
    ensures ReadRows(t, other) == ReadRows(t', other)
  {
    hide Decode, Readable;
    assert KeysOf(t, other) == KeysOf(t', other);
    assert forall key :: key in KeysOf(t, other) ==> t[(other, key)] == t'[(other, key)];
    assert AllReadable(t, other) <==> AllReadable(t', other);
    if AllReadable(t, other) {
      assert ReadRows(t, other).value == ReadRows(t', other).value;
    }
  }

  // ----- a diff does what it says -----

  /** `after` on the keys done, `before` on the rest. */
  function Mixed(before: Rows, after: Rows, done: set<Key>): Rows {
    map key | key in before.Keys + after.Keys && (if key in done then key in after else key in before)
      :: if key in done then after[key] else before[key]
  }

  function KeySet(ops: seq<Operation>): set<Key> { set op | op in ops :: op.key }

  lemma MixedStep(before: Rows, after: Rows, done: set<Key>, key: Key)
    requires Differs(before, after, key) && key !in done
    ensures ApplyToRows(Mixed(before, after, done), OperationFor(before, after, key)) == Some(Mixed(before, after, done + {key}))
  {
    var now, next := Mixed(before, after, done), Mixed(before, after, done + {key});
    if key in after {
      assert next == now[key := after[key]];
    } else {
      assert next == now - {key};
    }
  }

  lemma {:induction false} DiffMoves(before: Rows, after: Rows, done: set<Key>, ops: seq<Operation>)
    requires DiffOperations(before, after, ops)
    requires forall i :: 0 <= i < |ops| ==> ops[i].key !in done
    ensures ApplyAllToRows(Mixed(before, after, done), ops) == Some(Mixed(before, after, done + KeySet(ops)))
    decreases |ops|
  {
    hide Mixed, ApplyToRows, Differs, OperationFor;
    if ops == [] {
      assert done + KeySet(ops) == done;
    } else {
      var op, rest := ops[0], ops[1..];
      var wider := done + {op.key};
      MixedStep(before, after, done, op.key);
      DiffMoves(before, after, wider, rest);
      assert ops == [op] + rest;
      assert wider + KeySet(rest) == done + KeySet(ops);
    }
  }

  /** Where the operations of a diff lead: to `after`, but for rows of equal value, which stay as they are. */
  function Reached(before: Rows, after: Rows): Rows {
    map key | key in after :: if key in before && SameValue(before[key], after[key]) then before[key] else after[key]
  }

  lemma MixedEnds(before: Rows, after: Rows, done: set<Key>)
    requires forall key :: Differs(before, after, key) <==> key in done
    ensures Mixed(before, after, {}) == before && Mixed(before, after, done) == Reached(before, after)
  {
    hide SameValue;
    assert forall key :: key !in done ==> !Differs(before, after, key);
    assert forall key :: key in done ==> Differs(before, after, key);
  }

  lemma ReachedMeans(before: Rows, after: Rows)
    ensures Reached(before, after) == after <==> Discernible(before, after)
  {
    hide SameValue;
    var reached := Reached(before, after);
    if reached == after {
      forall key | key in before && key in after && SameValue(before[key], after[key]) ensures before[key] == after[key] {
        assert reached[key] == before[key];
      }
    }
  }

  /**
   Applying the operations of a diff to `before` never fails. It gives `after` exactly if Python's equality tells all
   rows apart that differ.
   */
  lemma {:induction false} DiffApplies(before: Rows, after: Rows, ops: seq<Operation>)
    requires IsDiff(before, after, ops)
    ensures ApplyAllToRows(before, ops) == Some(Reached(before, after))
    ensures ApplyAllToRows(before, ops) == Some(after) <==> Discernible(before, after)
  {
    hide Mixed, ApplyAllToRows, Differs, OperationFor, Reached, Discernible;
    DiffMoves(before, after, {}, ops);
    assert {} + KeySet(ops) == KeySet(ops);
    forall key ensures Differs(before, after, key) <==> key in KeySet(ops) {
      if Differs(before, after, key) {
        var i :| 0 <= i < |ops| && ops[i].key == key;
        assert ops[i] in ops;
      }
    }
    MixedEnds(before, after, KeySet(ops));
    ReachedMeans(before, after);
  }

  lemma {:induction false} InverseAt(ops: seq<Operation>, i: nat)
    requires i < |ops|
    ensures |InverseOf(ops)| == |ops| && InverseOf(ops)[i] == Invert(ops[|ops| - 1 - i])
    decreases |ops|
  {
    if |ops| > 1 { InverseAt(ops[1..], if i < |ops| - 1 then i else 0); }
  }

  /** The inverse operations of a diff are a diff the other way. */
  lemma {:induction false} InverseIsDiff(before: Rows, after: Rows, ops: seq<Operation>)
    requires IsDiff(before, after, ops)
    ensures IsDiff(after, before, InverseOf(ops))
  {
    hide Differs, OperationFor, Invert, InverseOf;
    var n, inverse := |ops|, InverseOf(ops);
    if ops == [] { InverseOfNothing(); } else { InverseAt(ops, 0); }
    forall i | 0 <= i < n ensures inverse[i] == Invert(ops[n - 1 - i]) && inverse[i].key == ops[n - 1 - i].key {
      InverseAt(ops, i);
      InvertKey(ops[n - 1 - i]);
    }
    forall i | 0 <= i < n
      ensures Differs(after, before, inverse[i].key) && inverse[i] == OperationFor(after, before, inverse[i].key)
    {
      FlippedOperation(before, after, ops[n - 1 - i].key);
    }
    forall key | Differs(after, before, key) ensures exists i :: 0 <= i < n && inverse[i].key == key {
      DiffersSymmetric(before, after, key);
      var i :| 0 <= i < n && ops[i].key == key;
      assert ops[n - 1 - (n - 1 - i)].key == key;
      assert inverse[n - 1 - i].key == key;
    }
  }

  lemma InverseOfNothing()
    ensures InverseOf([]) == []
  {
  }

  lemma InvertKey(op: Operation)
    ensures Invert(op).key == op.key
  {
  }

  lemma DiffersSymmetric(before: Rows, after: Rows, key: Key)
    ensures Differs(before, after, key) <==> Differs(after, before, key)
  {
    if key in before && key in after { SameValueIsSymmetric(before[key], after[key]); }
  }

  lemma FlippedOperation(before: Rows, after: Rows, key: Key)
    requires Differs(before, after, key)
    ensures Differs(after, before, key) && Invert(OperationFor(before, after, key)) == OperationFor(after, before, key)
  {
    DiffersSymmetric(before, after, key);
    hide SameValue;
  }

  /** From where the operations lead, the inverse operations are a diff back, and nothing is missed. */
  lemma {:induction false} InverseFromReached(before: Rows, after: Rows, ops: seq<Operation>)
    requires IsDiff(after, before, ops)
    ensures IsDiff(Reached(before, after), before, ops) && Discernible(Reached(before, after), before)
  {
    var reached := Reached(before, after);
    forall key ensures Differs(reached, before, key) <==> Differs(after, before, key) {
      DiffersSymmetric(before, after, key);
      if key in before { SameValueIsSymmetric(before[key], before[key]); }
    }
    forall key | Differs(after, before, key) ensures OperationFor(reached, before, key) == OperationFor(after, before, key) {
      DiffersSymmetric(before, after, key);
    }
    forall key | key in reached && key in before && SameValue(reached[key], before[key]) ensures reached[key] == before[key] {
      SameValueIsSymmetric(before[key], after[key]);
    }
    hide Differs, OperationFor, SameValue, Reached;
  }

  /** The round trip: wherever a diff's operations lead, its inverse operations restore every row from there. */
  lemma {:induction false} DiffRoundTrip(before: Rows, after: Rows, ops: seq<Operation>)
    requires IsDiff(before, after, ops)
    ensures ApplyAllToRows(before, ops) == Some(Reached(before, after))
    ensures ApplyAllToRows(Reached(before, after), InverseOf(ops)) == Some(before)
  {
    hide IsDiff, Reached, InverseOf, ApplyAllToRows, Discernible;
    DiffApplies(before, after, ops);
    InverseIsDiff(before, after, ops);
    InverseFromReached(before, after, InverseOf(ops));
    DiffApplies(Reached(before, after), before, InverseOf(ops));
  }

  // ----- the table follows the rows -----

  lemma ReadAfterWrite(t: Table, provider: Provider, key: Key, r: Row)
    requires ReadRows(t, provider).Some? && Storable(provider, r) && key != ""
    ensures ReadRows(t[(provider, key) := Stored(r.digest, Some(r.payload))], provider) == Some(ReadRows(t, provider).value[key := r])
  {
    hide IsDigest, Fold;
    var t' := t[(provider, key) := Stored(r.digest, Some(r.payload))];
    assert KeysOf(t', provider) == KeysOf(t, provider) + {key};
    assert AllReadable(t', provider);
    assert ReadRows(t', provider).value == ReadRows(t, provider).value[key := r];
  }

  lemma ReadAfterRemove(t: Table, provider: Provider, key: Key)
    requires ReadRows(t, provider).Some?
    ensures ReadRows(t - {(provider, key)}, provider) == Some(ReadRows(t, provider).value - {key})
  {
    hide IsDigest, Fold;
    var t' := t - {(provider, key)};
    assert KeysOf(t', provider) == KeysOf(t, provider) - {key};
    assert AllReadable(t', provider);
    assert ReadRows(t', provider).value == ReadRows(t, provider).value - {key};
  }

  lemma {:induction false} OperationFollowsRows(t: Table, provider: Provider, op: Operation)
    requires ReadRows(t, provider).Some? && (op.after.Some? ==> op.key != "" && Storable(provider, op.after.value))
    ensures var rows := ApplyToRows(ReadRows(t, provider).value, op);
      rows.Some? ==> ApplyOperation(t, provider, op).Some? && ReadRows(ApplyOperation(t, provider, op).value, provider) == rows
  {
    KeyIsRow(t, provider, op.key);
    hide Storable, ReadRows;
    match op.action
    case Add => if op.after.Some? { ReadAfterWrite(t, provider, op.key, op.after.value); }
    case Update => if op.after.Some? { ReadAfterWrite(t, provider, op.key, op.after.value); }
    case Remove => ReadAfterRemove(t, provider, op.key);
    case Unsupported =>
  }

  lemma KeyIsRow(t: Table, provider: Provider, key: Key)
    requires ReadRows(t, provider).Some?
    ensures key in ReadRows(t, provider).value <==> (provider, key) in t
  {
    hide Decode;
  }

  lemma {:induction false} OperationsFollowRows(t: Table, provider: Provider, ops: seq<Operation>)
    requires ReadRows(t, provider).Some? && ApplyAllToRows(ReadRows(t, provider).value, ops).Some?
    requires WrittenStorable(provider, ops)
    ensures ApplyOperations(t, provider, ops).Some?
    ensures ReadRows(ApplyOperations(t, provider, ops).value, provider) == ApplyAllToRows(ReadRows(t, provider).value, ops)
    decreases |ops|
  {
    hide Storable, ReadRows, ApplyOperation, ApplyToRows;
    if ops != [] {
      OperationFollowsRows(t, provider, ops[0]);
      OperationsFollowRows(ApplyOperation(t, provider, ops[0]).value, provider, ops[1..]);
    }
  }

  /** Every row that the operations write has a key, and survives being stored. */
  predicate WrittenStorable(provider: Provider, ops: seq<Operation>) {
    forall i :: 0 <= i < |ops| ==> ops[i].after.Some? ==> ops[i].key != "" && Storable(provider, ops[i].after.value)
  }

  /** Every row that the operations take away could be written back. */
  predicate ReplacedStorable(provider: Provider, ops: seq<Operation>) {
    forall i :: 0 <= i < |ops| ==> ops[i].before.Some? ==> ops[i].key != "" && Storable(provider, ops[i].before.value)
  }

  lemma {:induction false} InverseWrites(provider: Provider, ops: seq<Operation>)
    ensures WrittenStorable(provider, InverseOf(ops)) <==> ReplacedStorable(provider, ops)
  {
    hide Storable, InverseOf;
    var inverse := InverseOf(ops);
    if ops == [] { InverseOfNothing(); } else { InverseAt(ops, 0); }
    forall i | 0 <= i < |ops| ensures inverse[i].after == ops[|ops| - 1 - i].before && inverse[i].key == ops[|ops| - 1 - i].key {
      InverseAt(ops, i);
    }
    if WrittenStorable(provider, inverse) {
      forall i | 0 <= i < |ops| && ops[i].before.Some? ensures ops[i].key != "" && Storable(provider, ops[i].before.value) {
        assert inverse[|ops| - 1 - i].after == ops[i].before;
      }
    }
  }

  lemma {:induction false} UntouchedKey(t: Table, provider: Provider, ops: seq<Operation>, key: Key)
    requires ApplyOperations(t, provider, ops).Some? && forall i :: 0 <= i < |ops| ==> ops[i].key != key
    requires (provider, key) in t
    ensures (provider, key) in ApplyOperations(t, provider, ops).value
    ensures ApplyOperations(t, provider, ops).value[(provider, key)] == t[(provider, key)]
    decreases |ops|
  {
    if ops != [] { UntouchedKey(ApplyOperation(t, provider, ops[0]).value, provider, ops[1..], key); }
  }

  lemma {:induction false} WrittenStays(t: Table, provider: Provider, ops: seq<Operation>, i: nat)
    requires ApplyOperations(t, provider, ops).Some? && i < |ops|
    requires forall j, k :: 0 <= j < k < |ops| ==> ops[j].key != ops[k].key
    requires ops[i].after.Some? && !ops[i].action.Remove?
    ensures (provider, ops[i].key) in ApplyOperations(t, provider, ops).value
    ensures ApplyOperations(t, provider, ops).value[(provider, ops[i].key)] == Written(ops[i]).value
    decreases |ops|
  {
    var t' := ApplyOperation(t, provider, ops[0]).value;
    if i == 0 { UntouchedKey(t', provider, ops[1..], ops[0].key); } else { WrittenStays(t', provider, ops[1..], i - 1); }
  }

  /** A row that cannot be read back makes all rows of its provider unreadable. */
  lemma {:induction false} UnstorableEnds(t: Table, provider: Provider, before: Rows, after: Rows, ops: seq<Operation>)
    requires IsDiff(before, after, ops) && AllDecoded(provider, after) && !WrittenStorable(provider, ops)
    requires ApplyOperations(t, provider, ops).Some?
    ensures ReadRows(ApplyOperations(t, provider, ops).value, provider).None?
  {
    hide IsDigest, Fold, Differs, ApplyOperations;
    var i :| 0 <= i < |ops| && ops[i].after.Some? && !(ops[i].key != "" && Storable(provider, ops[i].after.value));
    assert ops[i] == OperationFor(before, after, ops[i].key);
    StorableMeans(provider, ops[i].after.value);
    WrittenStays(t, provider, ops, i);
  }

  /** What one provider's operations lead to, exactly: nothing was missed, and nothing is written that cannot be read back. */
  lemma {:induction false} PlanLeads(t: Table, provider: Provider, before: Rows, after: Rows, ops: seq<Operation>)
    requires IsDiff(before, after, ops) && AllDecoded(provider, after) && ReadRows(t, provider) == Some(before)
    ensures Leads(t, provider, before, after, ops) <==> Discernible(before, after) && WrittenStorable(provider, ops)
  {
    hide ReadRows, IsDiff, AllDecoded, Discernible, ApplyOperations, ApplyAllToRows;
    if WrittenStorable(provider, ops) {
      DiffApplies(before, after, ops);
      OperationsFollowRows(t, provider, ops);
    } else if ApplyOperations(t, provider, ops).Some? {
      UnstorableEnds(t, provider, before, after, ops);
    }
  }

  // ----- transactions -----

  datatype Target = Target(modId: string, provider: Provider, kind: string, root: string)

  /** The provider's files by path, with their digests, as one hashing pass observes them. */
  type Hashes = map<string, string>

  datatype Plan = Plan(target: Target, hashes: Hashes, baseline: Rows, desired: Rows, operations: seq<Operation>)

  datatype Request = Request(target: Target, desired: Rows, plan: Plan, stagedTestDatabase: bool, allowStagedWrite: bool,
                             guard: ScopeReceipt.Guard)

  datatype Journal = Journal(provider: Provider, database: string, inverse: seq<Operation>, preState: Rows, postState: Rows)

  datatype RefreshError = Unavailable | PlanMismatch | HashDrift | PlanDrift | Fault | ReportTooLarge

  predicate OwnedBy(provider: Provider, ops: seq<Operation>) {
    forall i :: 0 <= i < |ops| ==>
      (ops[i].before.Some? ==> ops[i].before.value.provider == provider)
      && (ops[i].after.Some? ==> ops[i].after.value.provider == provider)
  }

  /** `_validate_plan_request`. */
  predicate PlanFits(r: Request) {
    r.plan.target == r.target && r.plan.desired == r.desired && OwnedBy(r.target.provider, r.plan.operations)
  }

  /** A plan as a dry run makes it, for the rows of some records. */
  ghost predicate Genuine(r: Request) {
    && PlanFits(r) && IsDiff(r.plan.baseline, r.plan.desired, r.plan.operations)
    && AllDecoded(r.target.provider, r.plan.baseline) && AllDecoded(r.target.provider, r.desired)
  }

  /** Whether a genuine plan leads to what it was made for. */
  predicate Attainable(r: Request) {
    Discernible(r.plan.baseline, r.desired) && WrittenStorable(r.target.provider, r.plan.operations)
  }

  /** Moved, for one provider, from one decoded state to another; no other stored row changed. */
  predicate Moved(t: Table, t': Table, provider: Provider, before: Rows, after: Rows) {
    ReadRows(t, provider) == Some(before) && ReadRows(t', provider) == Some(after) && OthersSame(t, t', provider)
  }

  /** The operations lead from one decoded state of the provider to the other. */
  predicate Leads(t: Table, provider: Provider, before: Rows, after: Rows, ops: seq<Operation>) {
    && ReadRows(t, provider) == Some(before) && ApplyOperations(t, provider, ops).Some?
    && ReadRows(ApplyOperations(t, provider, ops).value, provider) == Some(after)
  }

  predicate Undrifted(t: Table, r: Request, hashes: Hashes, locked: Hashes, final: Hashes) {
    hashes == locked == final == r.plan.hashes && ReadRows(t, r.target.provider) == Some(r.plan.baseline)
  }

  function JournalOf(r: Request, path: string): Journal {
    Journal(r.target.provider, path, InverseOf(r.plan.operations), r.plan.baseline, r.desired)
  }

  /** What one hashing and one transaction did: the files opened and the bytes read. */
  datatype Work = Work(files: nat, bytes: nat)

  /** The access that the report of a commit declares. */
  function AccessOf(g: ScopeReceipt.Guard, w: Work): ScopeReceipt.Access {
    ScopeReceipt.Access(g.allowedRoots, w.files, 0, w.bytes, 0, {}, 0, true, {})
  }

  /** A journal as the commit of a genuine plan writes it. */
  ghost predicate GenuineJournal(j: Journal, path: string) {
    && j.database == path && OwnedBy(j.provider, j.inverse) && IsDiff(j.postState, j.preState, j.inverse)
    && AllDecoded(j.provider, j.preState)
  }

  class Database {
    const path: string
    const stagedMarker: bool
    /** Whether the storage engine is free of faults of its own. */
    const reliable: bool
    /** The length of a commit's report without the parts that depend on the measured length itself. */
    const reportLength: (Request, Journal) -> nat
    var table: Table

    constructor (path: string, stagedMarker: bool, reliable: bool, reportLength: (Request, Journal) -> nat, table: Table)
      ensures this.path == path && this.stagedMarker == stagedMarker && this.reliable == reliable
      ensures this.reportLength == reportLength && this.table == table
    {
      this.path, this.stagedMarker, this.reliable := path, stagedMarker, reliable;
      this.reportLength, this.table := reportLength, table;
    }

    /** The report of a commit reaches a length within the response limit. */
    ghost predicate ReportFits(r: Request, w: Work) {
      MeasuredReceipt.Fits(reportLength(r, JournalOf(r, path)), r.guard, AccessOf(r.guard, w))
    }

    /** The measuring loop of `_result`. */
    method Report(r: Request, j: Journal, w: Work) returns (fits: bool)
      ensures fits <==> MeasuredReceipt.Fits(reportLength(r, j), r.guard, AccessOf(r.guard, w))
    {
      var rest, access := reportLength(r, j), AccessOf(r.guard, w);
      var n, receipt := MeasuredReceipt.EmitMeasured(rest, r.guard, access);
      MeasuredReceipt.LengthIsSerialized(rest, r.guard, access, n);
      fits := n <= r.guard.limits.responseBytes;
    }

    /** The dry run: `_make_plan` over the rows as they are, for rows that come from records. */
    method MakePlan(target: Target, hashes: Hashes, desired: Rows) returns (plan: Option<Plan>)
      requires AllDecoded(target.provider, desired)
      ensures plan.Some? <==> ReadRows(table, target.provider).Some?
      ensures plan.Some? ==> (
        && plan.value.target == target && plan.value.hashes == hashes && plan.value.desired == desired
        && ReadRows(table, target.provider) == Some(plan.value.baseline)
        && forall r: Request :: r.plan == plan.value && r.target == target && r.desired == desired ==> Genuine(r))
    {
      hide ReadRows, Differs, IsDigest;
      var before := ReadRows(table, target.provider);
      if before.None? { return None; }
      ReadRowsAreStorable(table, target.provider);
      var ops := Operations(before.value, desired);
      return Some(Plan(target, hashes, before.value, desired, ops));
    }

    /** Applies the operations one by one inside the open transaction. */
    method Apply(provider: Provider, ops: seq<Operation>) returns (error: Option<RefreshError>)
      modifies this
      ensures error.None? ==> ApplyOperations(old(table), provider, ops) == Some(table)
      ensures error != Some(ReportTooLarge)
      ensures reliable && ApplyOperations(old(table), provider, ops).Some? ==> error.None?
    {
      var i := 0;
      while i < |ops|
        invariant 0 <= i <= |ops|
        invariant ApplyOperations(table, provider, ops[i..]) == ApplyOperations(old(table), provider, ops)
      {
        assert ops[i..][0] == ops[i] && ops[i..][1..] == ops[i + 1..];
        var fault := *;
        if fault && !reliable { return Some(Fault); }
        var next := ApplyOperation(table, provider, ops[i]);
        if next.None? { return Some(PlanDrift); }
        table := next.value;
        i := i + 1;
      }
      return None;
    }

    /**
     One write transaction: check the current rows, apply, check the result, then commit. Every failure takes the
     table back to the state the transaction began in.
     */
    method Transact(provider: Provider, before: Rows, after: Rows, ops: seq<Operation>, drift: bool, lateDrift: bool)
      returns (error: Option<RefreshError>)
      modifies this
      ensures error.None? ==> Moved(old(table), table, provider, before, after) && stagedMarker && !drift && !lateDrift
      ensures error.None? ==> Leads(old(table), provider, before, after, ops)
      ensures error.Some? ==> table == old(table) && error.value != ReportTooLarge
      ensures stagedMarker && ReadRows(old(table), provider) != Some(before) ==> error == Some(PlanDrift)
      ensures reliable && stagedMarker && !drift && !lateDrift && Leads(old(table), provider, before, after, ops) ==> error.None?
    {
      hide ReadRows, OthersSame, ApplyOperations;
      var saved := table;                               // BEGIN IMMEDIATE
      if !stagedMarker { return Some(Unavailable); }
      if ReadRows(table, provider) != Some(before) { return Some(PlanDrift); }
      if drift { return Some(HashDrift); }
      error := Apply(provider, ops);
      if error.None? {
        OperationsKeepOthers(old(table), provider, ops);
        var fault := *;
        if ReadRows(table, provider) != Some(after) {
          error := Some(PlanDrift);
        } else if lateDrift {
          error := Some(HashDrift);
        } else if fault && !reliable {
          error := Some(Fault);
        }
      }
      if error.Some? { table := saved; }                // ROLLBACK
    }

    /**
     `_refresh_mod_exact_impl`, the commit. `hashes`, `locked` and `final` are what the three hashing passes see.
     Whatever the plan's operations are, the table either keeps every row or moves exactly the target provider from
     the reviewed baseline to the requested rows. The report is measured after the move: where no length of it is
     within the limit, the caller gets an error and no journal to roll back with.
     */
    method Commit(r: Request, hashes: Hashes, locked: Hashes, final: Hashes, w: Work)
      returns (result: Result<Journal, RefreshError>)
      modifies this
      ensures result.Err? && result.error != ReportTooLarge ==> table == old(table)
      ensures result.Ok? || result.error == ReportTooLarge ==> (
        && Moved(old(table), table, r.target.provider, r.plan.baseline, r.desired)
        && hashes == locked == final == r.plan.hashes && r.stagedTestDatabase && r.allowStagedWrite
        && (result.Ok? <==> ReportFits(r, w)))
      ensures result.Ok? ==> result.value == JournalOf(r, path)
      // a genuine plan commits exactly if it is attainable, and rows and files have not drifted
      ensures reliable && stagedMarker && r.stagedTestDatabase && r.allowStagedWrite && Genuine(r) ==>
        (result.Ok? || result.error == ReportTooLarge <==> Attainable(r) && Undrifted(old(table), r, hashes, locked, final))
    {
      hide ReadRows, OthersSame, ApplyOperations, IsDiff, AllDecoded, AccessOf, Discernible, WrittenStorable, Leads;
      var provider := r.target.provider;
      if !r.stagedTestDatabase || !r.allowStagedWrite { return Err(Unavailable); }
      if !PlanFits(r) { return Err(PlanMismatch); }
      if r.plan.hashes != hashes { return Err(HashDrift); }
      if Genuine(r) && ReadRows(table, provider) == Some(r.plan.baseline) {
        PlanLeads(table, provider, r.plan.baseline, r.desired, r.plan.operations);
      }
      var error := Transact(provider, r.plan.baseline, r.desired, r.plan.operations, locked != hashes, final != hashes);
      if error.Some? { return Err(error.value); }
      var inverse := InverseOperations(r.plan.operations);
      var journal := Journal(provider, path, inverse, r.plan.baseline, r.desired);
      var fits := Report(r, journal, w);
      if !fits { return Err(ReportTooLarge); }
      return Ok(journal);
    }

    /** `_rollback_mod_exact_impl`: accepted only from the journal's post-state, and it restores its pre-state. */
    method Rollback(j: Journal, stagedTestDatabase: bool) returns (error: Option<RefreshError>)
      modifies this
      ensures error.Some? ==> table == old(table)
      ensures error.None? ==> Moved(old(table), table, j.provider, j.postState, j.preState)
      ensures reliable && stagedMarker && stagedTestDatabase && GenuineJournal(j, path) ==>
        (error.None? <==>
          && ReadRows(old(table), j.provider) == Some(j.postState)
          && Discernible(j.postState, j.preState) && WrittenStorable(j.provider, j.inverse))
    {
      hide ReadRows, OthersSame, ApplyOperations, IsDiff, AllDecoded, Discernible, WrittenStorable, Leads;
      if !stagedTestDatabase || j.database != path || !OwnedBy(j.provider, j.inverse) { return Some(PlanMismatch); }
      if GenuineJournal(j, path) && ReadRows(table, j.provider) == Some(j.postState) {
        PlanLeads(table, j.provider, j.postState, j.preState, j.inverse);
      }
      error := Transact(j.provider, j.postState, j.preState, j.inverse, false, false);
    }
  }

  /**
   The journal of a genuine plan's commit is a genuine journal, and can be rolled back exactly if the rows it would
   write back are storable.
   */
  lemma {:induction false} CommitJournalIsGenuine(r: Request, path: string)
    requires Genuine(r)
    ensures GenuineJournal(JournalOf(r, path), path)
    ensures WrittenStorable(r.target.provider, JournalOf(r, path).inverse) <==> ReplacedStorable(r.target.provider, r.plan.operations)
    ensures Discernible(r.plan.baseline, r.desired) ==> Discernible(r.desired, r.plan.baseline)
  {
    InverseWrites(r.target.provider, r.plan.operations);
    forall key | key in r.desired && key in r.plan.baseline && SameValue(r.desired[key], r.plan.baseline[key])
      ensures SameValue(r.plan.baseline[key], r.desired[key])
    {
      SameValueIsSymmetric(r.desired[key], r.plan.baseline[key]);
    }
    hide SameValue, IsDigest, Fold, Differs;
    var ops := r.plan.operations;
    InverseIsDiff(r.plan.baseline, r.plan.desired, ops);
    forall i | 0 <= i < |ops| ensures |InverseOf(ops)| == |ops| && InverseOf(ops)[i] == Invert(ops[|ops| - 1 - i]) {
      InverseAt(ops, i);
    }
    if ops == [] { InverseOfNothing(); }
  }

  /**
   A refresh followed by its rollback restores the provider's rows. Without faults both are accepted exactly if the
   plan is attainable, the rows it replaces can be written back, and the report fits. Rows are compared as decoded: a
   stored digest written in upper case comes back in lower case.
   */
  method RefreshThenRollback(db: Database, r: Request, w: Work) returns (done: bool)
    requires r.stagedTestDatabase && r.allowStagedWrite && Genuine(r)
    modifies db
    ensures done ==> ReadRows(db.table, r.target.provider) == ReadRows(old(db.table), r.target.provider)
    ensures done ==> OthersSame(old(db.table), db.table, r.target.provider)
    ensures db.reliable && db.stagedMarker && ReadRows(old(db.table), r.target.provider) == Some(r.plan.baseline) ==>
      (done <==> db.ReportFits(r, w) && Attainable(r) && ReplacedStorable(r.target.provider, r.plan.operations))
  {
    hide ReadRows, OthersSame, Genuine, GenuineJournal, Discernible, WrittenStorable, ReplacedStorable;
    var hashes := r.plan.hashes;
    var result := db.Commit(r, hashes, hashes, hashes, w);
    if result.Err? { return false; }
    ghost var middle := db.table;
    CommitJournalIsGenuine(r, db.path);
    var error := db.Rollback(result.value, true);
    done := error.None?;
    if done { OthersTransitive(old(db.table), middle, db.table, r.target.provider); }
  }

  lemma OthersTransitive(t: Table, t': Table, t'': Table, provider: Provider)
    requires OthersSame(t, t', provider) && OthersSame(t', t'', provider)
    ensures OthersSame(t, t'', provider)
  {
  }

  // ----- whole runs -----

  datatype Command = DoCommit(request: Request, hashes: Hashes, locked: Hashes, final: Hashes, work: Work)
                   | DoRollback(journal: Journal, staged: bool)

  /** One committed transaction: whose rows moved, from where to where. */
  datatype Move = Move(provider: Provider, before: Rows, after: Rows)

  /** A provider's rows after some committed transactions, told from the transactions alone. */
  function RowsAfter(start: Table, moves: seq<Move>, provider: Provider): Option<Rows> {
    if moves == [] then ReadRows(start, provider)
    else
      var last := moves[|moves| - 1];
      if last.provider == provider then Some(last.after) else RowsAfter(start, moves[..|moves| - 1], provider)
  }

  /** Each transaction started from the rows that the earlier ones had left. */
  ghost predicate Chained(start: Table, moves: seq<Move>) {
    forall i :: 0 <= i < |moves| ==> RowsAfter(start, moves[..i], moves[i].provider) == Some(moves[i].before)
  }

  ghost predicate RowsExplained(start: Table, moves: seq<Move>, now: Table) {
    forall p :: ReadRows(now, p) == RowsAfter(start, moves, p)
  }

  predicate MovedBy(moves: seq<Move>, provider: Provider) { exists i :: 0 <= i < |moves| && moves[i].provider == provider }

  ghost predicate RestStored(start: Table, moves: seq<Move>, now: Table) {
    forall pk: (Provider, Key) :: !MovedBy(moves, pk.0) ==> (pk in now <==> pk in start) && (pk in now ==> now[pk] == start[pk])
  }

  /** The history of a run explains every provider's rows, and rows nobody moved are stored as they were. */
  ghost predicate Explains(start: Table, moves: seq<Move>, now: Table) {
    Chained(start, moves) && RowsExplained(start, moves, now) && RestStored(start, moves, now)
  }

  lemma {:induction false} ChainExtends(start: Table, moves: seq<Move>, move: Move)
    requires Chained(start, moves) && RowsAfter(start, moves, move.provider) == Some(move.before)
    ensures Chained(start, moves + [move])
  {
    hide ReadRows, RowsAfter;
    var longer := moves + [move];
    forall i | 0 <= i < |longer| ensures RowsAfter(start, longer[..i], longer[i].provider) == Some(longer[i].before) {
      assert longer[..i] == moves[..i];
    }
  }

  lemma {:induction false} RowsExtend(start: Table, moves: seq<Move>, t: Table, t': Table, move: Move)
    requires RowsExplained(start, moves, t) && Moved(t, t', move.provider, move.before, move.after)
    ensures RowsExplained(start, moves + [move], t')
  {
    hide ReadRows, OthersSame;
    var longer := moves + [move];
    assert longer[..|moves|] == moves;
    forall p ensures ReadRows(t', p) == RowsAfter(start, longer, p) {
      if p != move.provider { OthersReadSame(t, t', move.provider, p); }
    }
  }

  lemma {:induction false} RestExtends(start: Table, moves: seq<Move>, t: Table, t': Table, move: Move)
    requires RestStored(start, moves, t) && OthersSame(t, t', move.provider)
    ensures RestStored(start, moves + [move], t')
  {
    var longer := moves + [move];
    forall pk: (Provider, Key) | !MovedBy(longer, pk.0)
      ensures (pk in t' <==> pk in start) && (pk in t' ==> t'[pk] == start[pk])
    {
      assert longer[|moves|].provider != pk.0;
      assert forall i :: 0 <= i < |moves| ==> longer[i] == moves[i];
    }
  }

  lemma {:induction false} MoveExtends(start: Table, moves: seq<Move>, t: Table, t': Table, move: Move)
    requires Explains(start, moves, t) && Moved(t, t', move.provider, move.before, move.after)
    ensures Explains(start, moves + [move], t')
  {
    hide ReadRows, RowsAfter, OthersSame, Chained, RestStored;
    ChainExtends(start, moves, move);
    RowsExtend(start, moves, t, t', move);
    RestExtends(start, moves, t, t', move);
  }

  /** Any run of commits and rollbacks, genuine or not, by any providers: the transactions it committed explain the table. */
  method Run(db: Database, commands: seq<Command>) returns (moves: seq<Move>)
    modifies db
    ensures Explains(old(db.table), moves, db.table) && |moves| <= |commands|
  {
    hide ReadRows, Moved, Explains, Genuine, GenuineJournal, Undrifted;
    moves := [];
    assert Explains(db.table, moves, db.table) by { NothingMoved(db.table); }
    for i := 0 to |commands|
      invariant Explains(old(db.table), moves, db.table) && |moves| <= i
    {
      ghost var before := db.table;
      match commands[i]
      case DoCommit(r, hashes, locked, final, w) =>
        var result := db.Commit(r, hashes, locked, final, w);
        if result.Ok? || result.error == ReportTooLarge {
          var move := Move(r.target.provider, r.plan.baseline, r.desired);
          MoveExtends(old(db.table), moves, before, db.table, move);
          moves := moves + [move];
        }
      case DoRollback(j, staged) =>
        var error := db.Rollback(j, staged);
        if error.None? {
          var move := Move(j.provider, j.postState, j.preState);
          MoveExtends(old(db.table), moves, before, db.table, move);
          moves := moves + [move];
        }
    }
  }

  lemma NothingMoved(t: Table)
    ensures Explains(t, [], t)
  {
  }

  // ----- a commit without a journal -----

  /** A report is at least as long as its fixed part. */
  lemma LongReport(rest: nat, g: ScopeReceipt.Guard, a: ScopeReceipt.Access)
    requires rest >= g.limits.responseBytes
    ensures !MeasuredReceipt.Fits(rest, g, a)
  {
    forall n: nat | n == MeasuredReceipt.LengthAt(rest, g, a, n) ensures n > g.limits.responseBytes {
      MeasuredReceipt.LengthIsSerialized(rest, g, a, n);
    }
  }

  /** Any request that adds one row, however large its own report may be. */
  predicate AddsOneRow(r: Request, row: Row) {
    && Storable(r.target.provider, row) && r.plan.target == r.target && r.plan.baseline == map[]
    && r.desired == r.plan.desired == map["k" := row]
    && r.plan.operations == [Operation(Add, "k", None, Some(row))]
    && r.stagedTestDatabase && r.allowStagedWrite
  }

  lemma AddingIsGenuine(r: Request, row: Row)
    requires AddsOneRow(r, row)
    ensures Genuine(r) && Attainable(r)
  {
    StorableIsDecoded(r.target.provider, row);
    hide IsDigest, Fold, SameValue;
    assert r.plan.operations[0].key == "k";
  }

  /**
   On an empty table, without faults or drift: the row is there, the caller has an error and no journal, as soon as
   the report's fixed part reaches the limit.
   */
  method MovedWithoutJournal(r: Request, row: Row, length: nat) returns (db: Database, result: Result<Journal, RefreshError>)
    requires AddsOneRow(r, row) && length >= r.guard.limits.responseBytes
    ensures fresh(db) && result == Err(ReportTooLarge)
    ensures ReadRows(db.table, r.target.provider) == Some(map["k" := row])
  {
    db := new Database("staged", true, true, (_, _) => length, map[]);
    AddingIsGenuine(r, row);
    LongReport(length, r.guard, AccessOf(r.guard, Work(1, 0)));
    assert ReadRows(map[], r.target.provider) == Some(map[]);
    hide ReadRows, OthersSame, Genuine, AddsOneRow, AccessOf, Attainable;
    var hashes := r.plan.hashes;
    result := db.Commit(r, hashes, hashes, hashes, Work(1, 0));
  }

  // ----- a plan that never commits, and a journal of no use -----

  function Zeros(): string { seq(64, _ => '0') }

  function Counted(v: Json): Json { Object(map["n" := v]) }

  lemma OneReads(provider: Provider, s: Stored)
    requires Readable(s)
    ensures ReadRows(map[(provider, "k") := s], provider) == Some(map["k" := Decode(provider, s)])
  {
    hide IsDigest, Fold;
    var t: Table := map[(provider, "k") := s];
    assert (provider, "k") in t;
    assert KeysOf(t, provider) == {"k"};
    assert AllReadable(t, provider);
    assert ReadRows(t, provider).value == map["k" := Decode(provider, s)];
  }

  lemma ZerosAreDigest()
    ensures IsDigest(Zeros()) && Fold(Zeros()) == Zeros()
  {
    FoldKeepsLowerHex(Zeros());
  }

  /** To Python, `{"n": 1}` and `{"n": true}` are one value. */
  lemma OneIsTrue()
    ensures Alike(Counted(Int(1)), Counted(Bool(true))) && Counted(Int(1)) != Counted(Bool(true))
  {
    assert Alike(Int(1), Bool(true));
    assert Counted(Int(1)).fields["n"] != Counted(Bool(true)).fields["n"];
  }

  /**
   A record whose number becomes a truth value: the dry run plans nothing, and the commit of its plan is refused,
   although nothing has drifted.
   */
  method NumberTypeIsMissed(target: Target, guard: ScopeReceipt.Guard)
    returns (db: Database, plan: Option<Plan>, result: Result<Journal, RefreshError>)
    ensures fresh(db) && plan.Some? && plan.value.operations == [] && plan.value.baseline != plan.value.desired
    ensures result.Err? && result.error != ReportTooLarge && ReadRows(db.table, target.provider) == Some(plan.value.baseline)
  {
    hide *;
    var p, before, row := target.provider, Stored(Zeros(), Some(Counted(Int(1)))), Row(target.provider, Zeros(), Counted(Bool(true)));
    var desired := map["k" := row];
    db := new Database("staged", true, true, (_, _) => 0, map[(p, "k") := before]);
    OneAndTrue(p, row);
    OneReads(p, before);
    assert AllDecoded(p, desired) by { OneRowDecoded(p, row); }
    plan := db.MakePlan(target, map[], desired);
    var r := Request(target, desired, plan.value, true, true, guard);
    assert Genuine(r);
    PlansNothing(r, Decode(p, before), row);
    result := db.Commit(r, map[], map[], map[], Work(1, 0));
    KeepsBaseline(r, Decode(p, before), row);
  }

  lemma OneAndTrue(p: Provider, row: Row)
    requires row == Row(p, Zeros(), Counted(Bool(true)))
    ensures var before := Stored(Zeros(), Some(Counted(Int(1))));
      Readable(before) && SameValue(Decode(p, before), row) && Decode(p, before) != row && Decoded(p, row)
  {
    ZerosAreDigest();
    OneIsTrue();
    hide IsDigest, Fold, Counted, Alike;
  }

  lemma OneRowDecoded(p: Provider, row: Row)
    requires Decoded(p, row)
    ensures AllDecoded(p, map["k" := row])
  {
  }

  lemma KeepsBaseline(r: Request, a: Row, b: Row)
    requires r.plan.baseline == map["k" := a] && r.desired == map["k" := b] && a != b && Genuine(r)
    ensures r.plan.baseline != r.plan.desired
  {
    hide IsDiff, AllDecoded, OwnedBy;
    assert r.plan.baseline["k"] == a && r.plan.desired["k"] == b;
  }

  lemma PlansNothing(r: Request, a: Row, b: Row)
    requires Genuine(r) && r.plan.baseline == map["k" := a] && r.desired == map["k" := b] && SameValue(a, b) && a != b
    ensures r.plan.operations == [] && !Attainable(r)
  {
    hide SameValue, OperationFor, AllDecoded, OwnedBy;
    var ops := r.plan.operations;
    assert |ops| > 0 ==> Differs(r.plan.baseline, r.plan.desired, ops[0].key);
    assert "k" in r.plan.baseline && "k" in r.desired;
  }

  function Ligatured(): string { seq(64, i => if i == 0 then LIGATURE else '0') }

  lemma LigaturedIsDigest()
    ensures IsDigest(Ligatured()) && |Fold(Ligatured())| != 64 && AllLowerHex(Fold(Ligatured()))
  {
    assert Ligatured()[0] == LIGATURE;
    DigestFolds(Ligatured());
  }

  /** A stored digest with the ligature: the row can be read and removed, and its removal cannot be rolled back. */
  method LigatureCannotReturn(target: Target, guard: ScopeReceipt.Guard)
    returns (db: Database, result: Result<Journal, RefreshError>, undone: Option<RefreshError>)
    requires MeasuredReceipt.Fits(0, guard, AccessOf(guard, Work(1, 0)))
    ensures fresh(db) && result.Ok? && undone.Some? && ReadRows(db.table, target.provider) == Some(map[])
  {
    var p, before := target.provider, Stored(Ligatured(), Some(Null));
    db := new Database("staged", true, true, (_, _) => 0, map[(p, "k") := before]);
    LigaturedIsDigest();
    OneReads(p, before);
    StorableMeans(p, Decode(p, before));
    hide ReadRows, OthersSame, IsDigest, Fold, AccessOf, Ligatured, SameValue;
    var plan := db.MakePlan(target, map[], map[]);
    var r := Request(target, map[], plan.value, true, true, guard);
    assert Genuine(r);
    RemovesOne(r, Decode(p, before));
    hide Genuine, Attainable, ReplacedStorable, Discernible, WrittenStorable, Storable, GenuineJournal, IsDiff;
    result := db.Commit(r, map[], map[], map[], Work(1, 0));
    CommitJournalIsGenuine(r, db.path);
    undone := db.Rollback(result.value, true);
  }

  lemma RemovesOne(r: Request, row: Row)
    requires Genuine(r) && r.plan.baseline == map["k" := row] && r.desired == map[] && !Storable(r.target.provider, row)
    ensures Attainable(r) && !ReplacedStorable(r.target.provider, r.plan.operations)
  {
    hide Storable;
    var ops := r.plan.operations;
    assert Differs(r.plan.baseline, r.plan.desired, "k");
    var i :| 0 <= i < |ops| && ops[i].key == "k";
    assert ops[i].before == Some(row);
  }
}
