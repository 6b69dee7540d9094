/** Writing records and paging through them undo each other. */
module PagedStoreProofs {
  import opened Wrappers
  import opened PagedStore

  // ----- the layout of an artifact -----

  lemma {:induction false} ContentConcat<R>(c: Codec<R>, a: seq<R>, b: seq<R>)
    ensures Content(c, a + b) == Content(c, a) + Content(c, b)
    decreases |b|
  {
    if b == [] {
      assert a + b == a;
    } else {
      var front := b[..|b| - 1];
      assert (a + b)[..|a + b| - 1] == a + front;
      ContentConcat(c, a, front);
    }
  }

  /** From a record's offset on, an artifact reads the record's line and then the rest. */
  lemma {:induction false} ContentAt<R>(c: Codec<R>, rs: seq<R>, j: nat)
    requires j < |rs|
    ensures Offset(c, rs, j) < Offset(c, rs, j + 1) <= |Content(c, rs)|
    ensures Offset(c, rs, j + 1) == Offset(c, rs, j) + |Line(c, rs[j])|
    ensures Content(c, rs)[Offset(c, rs, j)..] == Line(c, rs[j]) + Content(c, rs)[Offset(c, rs, j + 1)..]
  {
    assert rs[..j + 1][..j] == rs[..j] && rs[..j + 1][j] == rs[j];
    assert rs == rs[..j + 1] + rs[j + 1..];
    ContentConcat(c, rs[..j + 1], rs[j + 1..]);
  }

  lemma {:induction false} OffsetsRise<R>(c: Codec<R>, rs: seq<R>, i: nat, j: nat)
    requires i < j <= |rs|
    ensures Offset(c, rs, i) < Offset(c, rs, j) <= |Content(c, rs)|
    decreases j
  {
    ContentAt(c, rs, j - 1);
    if i < j - 1 { OffsetsRise(c, rs, i, j - 1); }
  }

  lemma OffsetEnds<R>(c: Codec<R>, rs: seq<R>, j: nat)
    requires j <= |rs|
    ensures Offset(c, rs, 0) == 0 && Offset(c, rs, |rs|) == |Content(c, rs)|
    ensures Offset(c, rs, j) <= |Content(c, rs)|
    ensures Offset(c, rs, j) == |Content(c, rs)| <==> j == |rs|
  {
    assert rs[..|rs|] == rs && rs[..0] == [];
    if j < |rs| { OffsetsRise(c, rs, j, |rs|); }
  }

  lemma {:induction false} ReadLineStops(prefix: Bytes, rest: Bytes, limit: nat)
    requires LF !in prefix && |prefix| < limit
    ensures ReadLine(prefix + [LF] + rest, limit) == prefix + [LF]
    decreases |prefix|
  {
    var s := prefix + [LF] + rest;
    if prefix != [] {
      assert s[1..] == prefix[1..] + [LF] + rest;
      ReadLineStops(prefix[1..], rest, limit - 1);
    }
  }

  lemma {:induction false} ReadRecord<R(!new)>(c: Codec<R>, maxRecord: nat, rs: seq<R>, j: nat)
    requires Canonical(c) && j < |rs| && |Line(c, rs[j])| <= maxRecord
    requires Offset(c, rs, j) <= |Content(c, rs)|
    ensures ReadLine(Content(c, rs)[Offset(c, rs, j)..], maxRecord + 1) == Line(c, rs[j])
    ensures ParseLine(c, Line(c, rs[j])) == Some(rs[j])
  {
    ContentAt(c, rs, j);
    ReadLineStops(c.encode(rs[j]), Content(c, rs)[Offset(c, rs, j + 1)..], maxRecord + 1);
    assert Line(c, rs[j])[..|Line(c, rs[j])| - 1] == c.encode(rs[j]);
  }

  // ----- what a page holds -----

  /** The page of records `i` up to `j`. */
  function PageFor<R>(c: Codec<R>, rs: seq<R>, i: nat, j: nat): Page<R>
    requires i <= j <= |rs|
  {
    Page(rs[i..j], if j == |rs| then None else Some(Offset(c, rs, j)), j == |rs|)
  }

  /** How far a page that starts at record `i` and holds those before `j` extends: until the next would not fit. */
  function Extent<R>(c: Codec<R>, rs: seq<R>, i: nat, j: nat, limit: nat): (k: nat)
    requires i <= j <= |rs|
    ensures j <= k <= |rs|
    decreases |rs| - j
  {
    if j == |rs| || PageLength(c, PageFor(c, rs, i, j + 1)) > limit then j else Extent(c, rs, i, j + 1, limit)
  }

  predicate FitsAll<R>(c: Codec<R>, rs: seq<R>, maxRecord: nat) {
    forall j :: 0 <= j < |rs| ==> |Line(c, rs[j])| <= maxRecord
  }

  lemma {:induction false} PageOfIsPageFor<R>(c: Codec<R>, rs: seq<R>, i: nat, j: nat)
    requires i <= j <= |rs|
    ensures PageOf(Content(c, rs), rs[i..j], Offset(c, rs, j)) == PageFor(c, rs, i, j)
  {
    OffsetEnds(c, rs, j);
  }

  lemma {:induction false} CollectWritten<R(!new)>(c: Codec<R>, maxRecord: nat, rs: seq<R>, i: nat, j: nat, limit: nat)
    requires Canonical(c) && FitsAll(c, rs, maxRecord) && i <= j <= |rs| && Offset(c, rs, j) <= |Content(c, rs)|
    ensures var k := Extent(c, rs, i, j, limit);
      Collect(c, maxRecord, Content(c, rs), rs[i..j], Offset(c, rs, j), limit) ==
      if i == k < |rs| then Err(ResponseLimit) else Ok((rs[i..k], Offset(c, rs, k)))
    decreases |rs| - j
  {
    hide Collect, PageLength, ReadLine, ParseLine, Content, PageOf, PageFor, Canonical, Line;
    OffsetEnds(c, rs, j);
    if j == |rs| {
      CollectEnd(c, maxRecord, Content(c, rs), rs[i..j], limit);
    } else {
      ReadRecord(c, maxRecord, rs, j);
      ContentAt(c, rs, j);
      CollectStep(c, maxRecord, Content(c, rs), rs[i..j], Offset(c, rs, j), limit);
      assert rs[i..j] + [rs[j]] == rs[i..j + 1];
      PageOfIsPageFor(c, rs, i, j + 1);
      CollectWritten(c, maxRecord, rs, i, j + 1, limit);
    }
  }

  /**
   A page read at a record boundary of a written artifact: it holds the records from there on until the next
   would not fit, or it is refused because the first alone does not.
   */
  lemma {:induction false} PageOfWritten<R(!new)>(c: Codec<R>, maxRecord: nat, rs: seq<R>, i: nat, limit: nat)
    requires Canonical(c) && FitsAll(c, rs, maxRecord) && i <= |rs|
    ensures var k := Extent(c, rs, i, i, limit);
      PageAt(c, maxRecord, Content(c, rs), Offset(c, rs, i), limit) ==
      if i == k < |rs| then Err(ResponseLimit) else Ok(PageFor(c, rs, i, k))
  {
    hide Collect, PageLength, Extent, Canonical;
    OffsetEnds(c, rs, i);
    CollectWritten(c, maxRecord, rs, i, i, limit);
    assert rs[i..i] == [];
    BoundaryIsAfterLf(c, rs, i);
    PageOfIsPageFor(c, rs, i, Extent(c, rs, i, i, limit));
  }

  lemma {:induction false} BoundaryIsAfterLf<R>(c: Codec<R>, rs: seq<R>, i: nat)
    requires i <= |rs| && Offset(c, rs, i) <= |Content(c, rs)|
    ensures i > 0 ==> Offset(c, rs, i) > 0 && Content(c, rs)[Offset(c, rs, i) - 1] == LF
  {
    if i > 0 {
      ContentAt(c, rs, i - 1);
      var tail := Content(c, rs)[Offset(c, rs, i - 1)..];
      assert tail[|Line(c, rs[i - 1])| - 1] == LF;
    }
  }

  /** The cursors a written artifact accepts are exactly its record boundaries. */
  lemma {:induction false} CursorsAreBoundaries<R(!new)>(c: Codec<R>, rs: seq<R>, offset: nat)
    requires Canonical(c)
    ensures offset <= |Content(c, rs)| && (offset > 0 ==> Content(c, rs)[offset - 1] == LF) <==>
      exists i :: 0 <= i <= |rs| && Offset(c, rs, i) == offset
  {
    var content := Content(c, rs);
    if i :| 0 <= i <= |rs| && Offset(c, rs, i) == offset {
      OffsetEnds(c, rs, i);
      BoundaryIsAfterLf(c, rs, i);
    }
    if offset <= |content| && (offset > 0 ==> content[offset - 1] == LF) {
      OffsetEnds(c, rs, 0);
      if offset > 0 { var i := FindBoundary(c, rs, offset, |rs|); }
    }
  }

  /** A line feed is the end of a record, since a record holds none. */
  lemma {:induction false} FindBoundary<R(!new)>(c: Codec<R>, rs: seq<R>, offset: nat, j: nat) returns (i: nat)
    requires Canonical(c) && j <= |rs| && 0 < offset <= |Content(c, rs)| && Content(c, rs)[offset - 1] == LF
    requires offset <= Offset(c, rs, j)
    ensures i <= |rs| && Offset(c, rs, i) == offset
    decreases j
  {
    OffsetEnds(c, rs, j);
    if offset == Offset(c, rs, j) {
      i := j;
    } else {
      ContentAt(c, rs, j - 1);
      InsideLine(c, rs, j - 1, offset);
      i := FindBoundary(c, rs, offset, j - 1);
    }
  }

  lemma {:induction false} InsideLine<R(!new)>(c: Codec<R>, rs: seq<R>, j: nat, offset: nat)
    requires Canonical(c) && j < |rs| && 0 < offset <= |Content(c, rs)|
    ensures Offset(c, rs, j) < offset < Offset(c, rs, j + 1) ==> Content(c, rs)[offset - 1] != LF
  {
    ContentAt(c, rs, j);
    if Offset(c, rs, j) < offset < Offset(c, rs, j + 1) {
      var p := offset - 1 - Offset(c, rs, j);
      assert Content(c, rs)[Offset(c, rs, j)..][p] == Content(c, rs)[offset - 1];
      assert c.encode(rs[j])[p] in c.encode(rs[j]);
    }
  }

  lemma {:induction false} IterateOne<R(!new)>(c: Codec<R>, maxRecords: nat, maxRecord: nat, rs: seq<R>, j: nat)
    requires Canonical(c) && j < |rs| <= maxRecords && |Line(c, rs[j])| <= maxRecord
    requires Offset(c, rs, j) <= |Content(c, rs)|
    ensures Offset(c, rs, j + 1) <= |Content(c, rs)|
    ensures Iterate(c, maxRecords, maxRecord, Content(c, rs), rs[..j], Offset(c, rs, j))
      == Iterate(c, maxRecords, maxRecord, Content(c, rs), rs[..j + 1], Offset(c, rs, j + 1))
  {
    hide *;
    ContentAt(c, rs, j);
    ReadRecord(c, |Content(c, rs)|, rs, j);
    IterateStep(c, maxRecords, maxRecord, Content(c, rs), rs[..j], Offset(c, rs, j));
    assert rs[..j] + [rs[j]] == rs[..j + 1];
  }

  /** The verified stream of a written artifact is the written records. */
  lemma {:induction false} IterateWritten<R(!new)>(c: Codec<R>, maxRecords: nat, maxRecord: nat, rs: seq<R>, j: nat)
    requires Canonical(c) && FitsAll(c, rs, maxRecord) && |rs| <= maxRecords && j <= |rs|
    requires Offset(c, rs, j) <= |Content(c, rs)|
    ensures Iterate(c, maxRecords, maxRecord, Content(c, rs), rs[..j], Offset(c, rs, j)) == Ok(rs)
    decreases |rs| - j
  {
    hide Iterate, Content, Canonical, Line, Offset;
    if j == |rs| {
      OffsetEnds(c, rs, j);
      assert rs[..j] == rs;
      IterateEnd(c, maxRecords, maxRecord, Content(c, rs), rs);
    } else {
      IterateOne(c, maxRecords, maxRecord, rs, j);
      IterateWritten(c, maxRecords, maxRecord, rs, j + 1);
    }
  }

  // ----- the pages one after the other -----

  /** Record `i` fits a page of its own. */
  predicate Alone<R>(c: Codec<R>, rs: seq<R>, i: nat, limit: nat)
    requires i < |rs|
  {
    PageLength(c, PageFor(c, rs, i, i + 1)) <= limit
  }

  /** A page makes progress exactly when its first record fits. */
  lemma ProgressIffAlone<R>(c: Codec<R>, rs: seq<R>, i: nat, limit: nat)
    requires i < |rs|
    ensures Extent(c, rs, i, i, limit) > i <==> Alone(c, rs, i, limit)
  {
    hide PageLength;
  }

  /** The pages are within their limits. */
  lemma {:induction false} ExtentWithinLimit<R>(c: Codec<R>, rs: seq<R>, i: nat, j: nat, limit: nat)
    requires i <= j <= |rs| && (i < j ==> PageLength(c, PageFor(c, rs, i, j)) <= limit)
    ensures i < Extent(c, rs, i, j, limit) ==> PageLength(c, PageFor(c, rs, i, Extent(c, rs, i, j, limit))) <= limit
    decreases |rs| - j
  {
    hide PageLength;
    if j < |rs| && PageLength(c, PageFor(c, rs, i, j + 1)) <= limit { ExtentWithinLimit(c, rs, i, j + 1, limit); }
  }

  /**
   Writes the records and follows `next_cursor` from the first cursor until a page is complete. `limits` gives the
   response limit of each page. The pages hold exactly the written records, in order, unless some record does not
   fit the page it is due on, even alone.
   */
  method WriteThenPage<R(==, !new)>(store: Store<R>, records: seq<R>, limits: nat -> nat)
    returns (r: Result<seq<R>, StoreError>, ghost stuck: nat, pages: nat)
    requires Canonical(store.codec) && forall k :: limits(k) >= MIN_RESPONSE_BYTES
    requires store.Bounded(records) && !Damaged(store.files, Content(store.codec, records))
    modifies store
    ensures r.Ok? ==> r.value == records && pages <= |records| + 1
    ensures r.Err? ==> r.error == ResponseLimit && stuck < |records| && !Alone(store.codec, records, stuck, limits(pages))
    ensures (forall k, i :: 0 <= i < |records| ==> Alone(store.codec, records, i, limits(k))) ==> r.Ok?
  {
    hide Alone, Extent, PageLength, PageAt, Content, Canonical;
    pages, stuck := 0, 0;
    var written := store.WriteRecords(records);
    var artifact := written.value;
    var cursor: Option<Cursor> := None;
    var collected: seq<R> := [];
    ghost var i := 0;
    var complete := false;
    OffsetEnds(store.codec, records, 0);
    while !complete
      invariant 0 <= i <= |records| && collected == records[..i] && pages <= i + (if complete then 1 else 0)
      invariant complete ==> i == |records|
      invariant artifact.digest == Sha(Content(store.codec, records)) && artifact.digest in store.files
      invariant store.files[artifact.digest] == Content(store.codec, records)
      invariant artifact.cursor.Some? ==> artifact.cursor.value == Cursor(artifact.digest, 0)
      invariant !complete && cursor.None? ==> i == 0
      invariant !complete && cursor.Some? ==> cursor.value == Cursor(artifact.digest, Offset(store.codec, records, i)) && i < |records|
      decreases |records| - i, !complete
    {
      var limit := limits(pages);
      var page := store.ReadPage(artifact.digest, artifact.cursor, cursor, limit);
      PageOfWritten(store.codec, store.maxRecordBytes, records, i, limit);
      if i < |records| { ProgressIffAlone(store.codec, records, i, limit); }
      if page.Err? {
        stuck := i;
        return Err(page.error), stuck, pages;
      }
      ghost var k := Extent(store.codec, records, i, i, limit);
      assert records[..i] + records[i..k] == records[..k];
      collected, complete, pages := collected + page.value.records, page.value.complete, pages + 1;
      if page.value.next.Some? { cursor := Some(Cursor(artifact.digest, page.value.next.value)); }
      i := k;
    }
    assert records[..i] == records;
    r := Ok(collected);
  }
}
