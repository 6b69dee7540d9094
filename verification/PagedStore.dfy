/** The detail artifact store: canonical JSON lines under a content digest, read back in pages by byte cursor. */
module PagedStore {
  import opened Wrappers

  const LF := 10
  const MIN_RESPONSE_BYTES := 512

  /**
   The canonical JSON encoding. Its bytes hold no raw line feed, since JSON strings escape control characters
   (section 7 of RFC 8259) and the canonical form has no whitespace of its own.
   */
  datatype Codec<!R> = Codec(encode: R -> Bytes, decode: Bytes -> Option<R>)

  ghost predicate Canonical<R(!new)>(c: Codec<R>) {
    forall r :: c.decode(c.encode(r)) == Some(r) && LF !in c.encode(r)
  }

  /** SHA-256 as an injective digest. */
  datatype Digest = Sha(content: Bytes)

  datatype Cursor = Cursor(digest: Digest, offset: nat) | Malformed

  datatype Artifact = Artifact(digest: Digest, cursor: Option<Cursor>, recordCount: nat, byteCount: nat)

  datatype Page<R> = Page(records: seq<R>, next: Option<nat>, complete: bool)

  datatype StoreError = BadLimit | ResponseLimit | Integrity

  function Line<R>(c: Codec<R>, r: R): Bytes { c.encode(r) + [LF] }

  function Content<R>(c: Codec<R>, rs: seq<R>): Bytes {
    if rs == [] then [] else Content(c, rs[..|rs| - 1]) + Line(c, rs[|rs| - 1])
  }

  /** Where record `i` starts. */
  function Offset<R>(c: Codec<R>, rs: seq<R>, i: nat): nat
    requires i <= |rs|
  {
    |Content(c, rs[..i])|
  }

  // ----- page length -----

  function EncodedLength<R>(c: Codec<R>, rs: seq<R>): nat {
    if rs == [] then 0 else EncodedLength(c, rs[..|rs| - 1]) + (if |rs| > 1 then 1 else 0) + |c.encode(rs[|rs| - 1])|
  }

  const ENVELOPE := 174

  /** The serialized page: a cursor is a quoted `cursor:`, 64 hexadecimal digits, a colon and the offset. */
  function PageLength<R>(c: Codec<R>, p: Page<R>): nat {
    ENVELOPE + (if p.complete then 4 else 5) + (match p.next case None => 4 case Some(n) => 74 + Digits(n))
    + EncodedLength(c, p.records)
  }

  // ----- reading -----

  /** `readline(limit)`: up to and including the first LF, but at most `limit` bytes. */
  function ReadLine(s: Bytes, limit: nat): (line: Bytes)
    ensures |line| <= |s| && line == s[..|line|]
    ensures s != [] && limit > 0 ==> line != []
  {
    if s == [] || limit == 0 then [] else if s[0] == LF then [LF] else [s[0]] + ReadLine(s[1..], limit - 1)
  }

  /** The record on a line, if the line is its canonical form. */
  function ParseLine<R(==)>(c: Codec<R>, line: Bytes): Option<R> {
    if line == [] || line[|line| - 1] != LF then None
    else match c.decode(line[..|line| - 1])
      case None => None
      case Some(r) => if line == Line(c, r) then Some(r) else None
  }

  function PageOf<R>(content: Bytes, records: seq<R>, offset: nat): Page<R> {
    Page(records, if offset == |content| then None else Some(offset), offset == |content|)
  }

  /** The records of the page that starts with those collected so far, and the offset after them. */
  function Collect<R(==)>(c: Codec<R>, maxRecord: nat, content: Bytes, records: seq<R>, offset: nat, limit: nat)
    : (r: Result<(seq<R>, nat), StoreError>)
    requires offset <= |content|
    ensures r.Ok? ==> offset <= r.value.1 <= |content|
    decreases |content| - offset
  {
    if offset == |content| then Ok((records, offset))
    else
      var line := ReadLine(content[offset..], maxRecord + 1);
      match ParseLine(c, line)
      case None => Err(Integrity)
      case Some(record) =>
        var after := offset + |line|;
        if PageLength(c, PageOf(content, records + [record], after)) > limit then
          if records == [] then Err(ResponseLimit) else Ok((records, offset))
        else Collect(c, maxRecord, content, records + [record], after, limit)
  }

  /** A page read at an offset. */
  function PageAt<R(==)>(c: Codec<R>, maxRecord: nat, content: Bytes, offset: nat, limit: nat): Result<Page<R>, StoreError> {
    if offset > |content| || (offset > 0 && content[offset - 1] != LF) then Err(Integrity)
    else match Collect(c, maxRecord, content, [], offset, limit)
      case Err(e) => Err(e)
      case Ok((records, after)) => Ok(PageOf(content, records, after))
  }

  /** The full record stream from an offset on, after the records already seen. */
  function Iterate<R(==)>(c: Codec<R>, maxRecords: nat, maxRecord: nat, content: Bytes, records: seq<R>, offset: nat)
    : Result<seq<R>, StoreError>
    requires offset <= |content|
    decreases |content| - offset
  {
    if offset == |content| then Ok(records)
    else
      var line := ReadLine(content[offset..], |content| + 1);
      if |records| + 1 > maxRecords || |line| > maxRecord then Err(Integrity)
      else match ParseLine(c, line)
        case None => Err(Integrity)
        case Some(record) => Iterate(c, maxRecords, maxRecord, content, records + [record], offset + |line|)
  }

  // ----- the store -----

  /** The file under the content's digest holds something else. */
  predicate Damaged(files: map<Digest, Bytes>, content: Bytes) { Sha(content) in files && files[Sha(content)] != content }

  class Store<R(==)> {
    const codec: Codec<R>
    const maxRecords: nat
    const maxArtifactBytes: nat
    const maxRecordBytes: nat
    /** The artifact files by the digest in their names. A file's bytes need not match its name. */
    var files: map<Digest, Bytes>

    constructor (codec: Codec<R>, maxRecords: nat, maxArtifactBytes: nat, maxRecordBytes: nat)
      ensures this.codec == codec && this.maxRecords == maxRecords && this.maxArtifactBytes == maxArtifactBytes
      ensures this.maxRecordBytes == maxRecordBytes && files == map[]
    {
      this.codec, this.maxRecords, this.maxArtifactBytes := codec, maxRecords, maxArtifactBytes;
      this.maxRecordBytes, files := maxRecordBytes, map[];
    }

    /** What the three write limits ask of the records. */
    predicate Bounded(records: seq<R>) {
      && |records| <= maxRecords && |Content(codec, records)| <= maxArtifactBytes
      && forall i :: 0 <= i < |records| ==> |Line(codec, records[i])| <= maxRecordBytes
    }

    /** `write_records`. */
    method WriteRecords(records: seq<R>) returns (r: Result<Artifact, StoreError>)
      modifies this
      ensures r.Ok? ==> Bounded(records) && files == old(files)[r.value.digest := Content(codec, records)]
      ensures r.Ok? ==> (var content := Content(codec, records);
        r.value == Artifact(Sha(content), if content == [] then None else Some(Cursor(Sha(content), 0)), |records|, |content|))
      ensures r.Err? ==> files == old(files)
      ensures r.Ok? <==> Bounded(records) && !Damaged(old(files), Content(codec, records))
      ensures r == Err(ResponseLimit) <==> !Bounded(records)
      ensures r == Err(Integrity) <==> Bounded(records) && Damaged(old(files), Content(codec, records))
    {
      var stream: Bytes := [];
      var count := 0;
      while count < |records|
        invariant 0 <= count <= |records| && count <= maxRecords
        invariant stream == Content(codec, records[..count]) && |stream| <= maxArtifactBytes
        invariant forall i :: 0 <= i < count ==> |Line(codec, records[i])| <= maxRecordBytes
      {
        var encoded := Line(codec, records[count]);
        assert records[..count + 1][..count] == records[..count];
        if count >= maxRecords || |encoded| > maxRecordBytes { return Err(ResponseLimit); }
        if |stream| + |encoded| > maxArtifactBytes {
          ContentGrows(codec, records, count + 1);
          return Err(ResponseLimit);
        }
        stream, count := stream + encoded, count + 1;
      }
      assert records[..count] == records;
      var digest := Sha(stream);
      if digest in files {
        if Sha(files[digest]) != digest { return Err(Integrity); }
      }
      files := files[digest := stream];
      return Ok(Artifact(digest, if stream == [] then None else Some(Cursor(digest, 0)), |records|, |stream|));
    }

    /** `_parse_cursor`, then the page loop of `read_page`. */
    method ReadPage(digest: Digest, initial: Option<Cursor>, cursor: Option<Cursor>, limit: int) returns (r: Result<Page<R>, StoreError>)
      ensures limit < MIN_RESPONSE_BYTES ==> r == Err(BadLimit)
      ensures limit >= MIN_RESPONSE_BYTES ==> r == ReadAt(digest, if cursor.Some? then cursor else initial, limit)
    {
      if limit < MIN_RESPONSE_BYTES { return Err(BadLimit); }
      var start := if cursor.Some? then cursor else initial;
      if start.Some? && (start.value.Malformed? || start.value.digest != digest) { return Err(Integrity); }
      var offset := if start.Some? then start.value.offset else 0;
      if digest !in files || Sha(files[digest]) != digest { return Err(Integrity); }
      var content := files[digest];
      if offset > |content| || (offset > 0 && content[offset - 1] != LF) { return Err(Integrity); }
      r := ReadRecords(content, offset, limit);
    }

    /** The page loop. */
    method ReadRecords(content: Bytes, offset: nat, limit: nat) returns (r: Result<Page<R>, StoreError>)
      requires offset <= |content| && (offset == 0 || content[offset - 1] == LF) && limit >= MIN_RESPONSE_BYTES
      ensures r == PageAt(codec, maxRecordBytes, content, offset, limit)
    {
      var records: seq<R> := [];
      var next := offset;
      hide Collect, ReadLine, ParseLine, PageLength;
      while next < |content|
        invariant offset <= next <= |content|
        invariant Collect(codec, maxRecordBytes, content, records, next, limit) == Collect(codec, maxRecordBytes, content, [], offset, limit)
        invariant records != [] ==> PageLength(codec, PageOf(content, records, next)) <= limit
        invariant records == [] ==> next == offset
      {
        var line := ReadLine(content[next..], maxRecordBytes + 1);
        var parsed := ParseLine(codec, line);
        CollectStep(codec, maxRecordBytes, content, records, next, limit);
        if parsed.None? { return Err(Integrity); }
        var after := next + |line|;
        ParsedLine(codec, line);
        if PageLength(codec, PageOf(content, records + [parsed.value], after)) > limit {
          if records == [] { return Err(ResponseLimit); }
          break;
        }
        records, next := records + [parsed.value], after;
      }
      if next == |content| {
        CollectEnd(codec, maxRecordBytes, content, records, limit);
        if records == [] { EmptyPageFits(codec, content); }
      }
      assert PageLength(codec, PageOf(content, records, next)) <= limit;  // the last envelope check never fires
      return Ok(PageOf(content, records, next));
    }

    /** `iter_verified_records`, run to its end. */
    method ReadVerified(digest: Digest) returns (r: Result<seq<R>, StoreError>)
      ensures r == if digest in files && Sha(files[digest]) == digest then
          Iterate(codec, maxRecords, maxRecordBytes, files[digest], [], 0) else Err(Integrity)
    {
      if digest !in files || Sha(files[digest]) != digest { return Err(Integrity); }
      r := IterateRecords(files[digest]);
    }

    method IterateRecords(content: Bytes) returns (r: Result<seq<R>, StoreError>)
      ensures r == Iterate(codec, maxRecords, maxRecordBytes, content, [], 0)
    {
      hide *;
      var records: seq<R> := [];
      var offset := 0;
      while offset < |content|
        invariant offset <= |content|
        invariant Iterate(codec, maxRecords, maxRecordBytes, content, records, offset)
          == Iterate(codec, maxRecords, maxRecordBytes, content, [], 0)
      {
        var line := ReadLine(content[offset..], |content| + 1);
        IterateStep(codec, maxRecords, maxRecordBytes, content, records, offset);
        if |records| + 1 > maxRecords || |line| > maxRecordBytes { return Err(Integrity); }
        var parsed := ParseLine(codec, line);
        if parsed.None? { return Err(Integrity); }
        records, offset := records + [parsed.value], offset + |line|;
      }
      IterateEnd(codec, maxRecords, maxRecordBytes, content, records);
      return Ok(records);
    }

    function ReadAt(digest: Digest, start: Option<Cursor>, limit: nat): Result<Page<R>, StoreError>
      reads this
    {
      if start.Some? && (start.value.Malformed? || start.value.digest != digest) then Err(Integrity)
      else if digest !in files || Sha(files[digest]) != digest then Err(Integrity)
      else PageAt(codec, maxRecordBytes, files[digest], if start.Some? then start.value.offset else 0, limit)
    }
  }

  lemma CollectStep<R>(c: Codec<R>, maxRecord: nat, content: Bytes, records: seq<R>, offset: nat, limit: nat)
    requires offset < |content|
    ensures var line := ReadLine(content[offset..], maxRecord + 1);
      Collect(c, maxRecord, content, records, offset, limit) ==
      match ParseLine(c, line)
      case None => Err(Integrity)
      case Some(record) =>
        if PageLength(c, PageOf(content, records + [record], offset + |line|)) > limit then
          if records == [] then Err(ResponseLimit) else Ok((records, offset))
        else Collect(c, maxRecord, content, records + [record], offset + |line|, limit)
  {
    hide PageLength, ParseLine, ReadLine;
  }

  lemma IterateStep<R>(c: Codec<R>, maxRecords: nat, maxRecord: nat, content: Bytes, records: seq<R>, offset: nat)
    requires offset < |content|
    ensures var line := ReadLine(content[offset..], |content| + 1);
      Iterate(c, maxRecords, maxRecord, content, records, offset) ==
      if |records| + 1 > maxRecords || |line| > maxRecord then Err(Integrity)
      else match ParseLine(c, line)
        case None => Err(Integrity)
        case Some(record) => Iterate(c, maxRecords, maxRecord, content, records + [record], offset + |line|)
  {
    hide ParseLine, ReadLine;
  }

  lemma IterateEnd<R>(c: Codec<R>, maxRecords: nat, maxRecord: nat, content: Bytes, records: seq<R>)
    ensures Iterate(c, maxRecords, maxRecord, content, records, |content|) == Ok(records)
  {
  }

  lemma CollectEnd<R>(c: Codec<R>, maxRecord: nat, content: Bytes, records: seq<R>, limit: nat)
    ensures Collect(c, maxRecord, content, records, |content|, limit) == Ok((records, |content|))
  {
  }

  lemma ParsedLine<R>(c: Codec<R>, line: Bytes)
    ensures ParseLine(c, line).Some? ==> line != [] && line == Line(c, ParseLine(c, line).value)
  {
  }

  /** The page past the last record fits every limit that a caller may ask for. */
  lemma EmptyPageFits<R>(c: Codec<R>, content: Bytes)
    ensures PageLength(c, PageOf(content, [], |content|)) < MIN_RESPONSE_BYTES
  {
  }

  lemma {:induction false} ContentGrows<R>(c: Codec<R>, rs: seq<R>, i: nat)
    requires i <= |rs|
    ensures |Content(c, rs[..i])| <= |Content(c, rs)|
    decreases |rs|
  {
    if i < |rs| {
      assert rs[..|rs| - 1][..i] == rs[..i];
      ContentGrows(c, rs[..|rs| - 1], i);
    } else {
      assert rs[..i] == rs;
    }
  }
}
