/**
 The byte-level editor of `mod_order.txt`, and the verifier that reads its result back.

 Two line splitters meet here: the editor splits BYTES at LF, CR and CRLF, and the verifier
 splits TEXT at those and at eight further separators. Strict UTF-8 decoding connects the two.
 */
module ModOrder {
  import opened Wrappers

  /** Unicode code points. */
  type Text = seq<int>

  const LF := 10
  const CR := 13
  const BOM: Bytes := [0xEF, 0xBB, 0xBF]

  // ----- strict UTF-8 (RFC 3629, section 4) -----

  predicate Continuation(b: int) { 0x80 <= b < 0xC0 }

  /** The first code point of `s` and the number of bytes it takes. */
  function DecodeOne(s: Bytes): (r: Option<(int, nat)>)
    requires s != []
    ensures r.Some? ==> 1 <= r.value.1 <= |s|
  {
    var b := s[0];
    if 0 <= b < 0x80 then
      Some((b, 1))
    else if 0xC2 <= b < 0xE0 && |s| >= 2 && Continuation(s[1]) then
      Some(((b - 0xC0) * 64 + (s[1] - 0x80), 2))
    else if 0xE0 <= b < 0xF0 && |s| >= 3 && Continuation(s[1]) && Continuation(s[2]) then
      var c := (b - 0xE0) * 4096 + (s[1] - 0x80) * 64 + (s[2] - 0x80);
      if c < 0x800 || 0xD800 <= c < 0xE000 then None else Some((c, 3))
    else if 0xF0 <= b < 0xF5 && |s| >= 4 && Continuation(s[1]) && Continuation(s[2]) && Continuation(s[3]) then
      var c := (b - 0xF0) * 262144 + (s[1] - 0x80) * 4096 + (s[2] - 0x80) * 64 + (s[3] - 0x80);
      if c < 0x10000 || c > 0x10FFFF then None else Some((c, 4))
    else
      None
  }

  function Decode(s: Bytes): Option<Text> {
    if s == [] then Some([])
    else
      match DecodeOne(s)
      case None => None
      case Some((c, n)) =>
        match Decode(s[n..])
        case None => None
        case Some(t) => Some([c] + t)
  }

  /** The decoded text, where there is one. */
  function TextOf(s: Bytes): Text {
    match Decode(s) case Some(t) => t case None => []
  }

  // ----- whitespace, lines and entries -----

  /** Python's `str.isspace`. */
  predicate IsSpace(c: int) {
    9 <= c <= 13 || 28 <= c <= 32 || c == 0x85 || c == 0xA0 || c == 0x1680 || 0x2000 <= c <= 0x200A
    || c == 0x2028 || c == 0x2029 || c == 0x202F || c == 0x205F || c == 0x3000
  }

  /** The separators only `str.splitlines` knows. */
  predicate IsExotic(c: int) {
    c == 0x0B || c == 0x0C || 0x1C <= c <= 0x1E || c == 0x85 || c == 0x2028 || c == 0x2029
  }

  predicate IsBreak(c: int, wide: bool) { c == LF || c == CR || (wide && IsExotic(c)) }

  /** Length of the first line, terminator included. `wide` selects the text splitter. */
  function LineEnd(s: seq<int>, wide: bool): (n: nat)
    requires s != []
    ensures 1 <= n <= |s|
  {
    if s[0] == CR && |s| > 1 && s[1] == LF then 2
    else if IsBreak(s[0], wide) || |s| == 1 then 1
    else 1 + LineEnd(s[1..], wide)
  }

  /** `splitlines(keepends=True)`. */
  function Lines(s: seq<int>, wide: bool): seq<seq<int>> {
    if s == [] then [] else [s[..LineEnd(s, wide)]] + Lines(s[LineEnd(s, wide)..], wide)
  }

  predicate Blank(t: Text) { forall i :: 0 <= i < |t| ==> IsSpace(t[i]) }

  function StripLeft(t: Text): Text {
    if t != [] && IsSpace(t[0]) then StripLeft(t[1..]) else t
  }

  function StripRight(t: Text): Text {
    if t != [] && IsSpace(t[|t| - 1]) then StripRight(t[..|t| - 1]) else t
  }

  function Strip(t: Text): Text { StripRight(StripLeft(t)) }

  /** The entry a line holds, if it is not blank. Terminators are whitespace, so stripping drops them too. */
  function Entry(line: Text): seq<Text> { if Strip(line) == [] then [] else [Strip(line)] }

  /** The non-blank stripped lines. */
  function Entries(t: Text, wide: bool): seq<Text> {
    if t == [] then [] else Entry(t[..LineEnd(t, wide)]) + Entries(t[LineEnd(t, wide)..], wide)
  }

  // ----- the mod being named -----

  /** A mod id with the case folding in force. */
  datatype Mod = Mod(id: Text, fold: int -> seq<int>)

  predicate IsModChar(c: int) { 97 <= c <= 122 || 48 <= c <= 57 || c == 95 }

  /** A registered mod id matches `[a-z0-9_]+`, and folding moves neither its characters nor whitespace. */
  ghost predicate ValidMod(m: Mod) {
    && m.id != []
    && (forall i :: 0 <= i < |m.id| ==> IsModChar(m.id[i]))
    && (forall c :: IsModChar(c) || IsSpace(c) ==> m.fold(c) == [c])
  }

  function CaseFold(m: Mod, t: Text): Text {
    if t == [] then [] else m.fold(t[0]) + CaseFold(m, t[1..])
  }

  predicate Names(m: Mod, entry: Text) { CaseFold(m, entry) == CaseFold(m, m.id) }

  predicate ChunkNames(m: Mod, chunk: Bytes) { Names(m, Strip(TextOf(chunk))) }

  /** How many entries name the mod. */
  function Hits(m: Mod, es: seq<Text>): nat {
    if es == [] then 0 else (if Names(m, es[0]) then 1 else 0) + Hits(m, es[1..])
  }

  /** The entries that name something else, in order. */
  function Others(m: Mod, es: seq<Text>): seq<Text> {
    if es == [] then [] else (if Names(m, es[0]) then [] else [es[0]]) + Others(m, es[1..])
  }

  // ----- the editor and the verifier -----

  datatype OrderError = InvalidUtf8 | NotExactlyOneEntry

  function BomOf(original: Bytes): Bytes { if BOM <= original then BOM else [] }

  function PayloadOf(original: Bytes): Bytes { original[|BomOf(original)|..] }

  function Join(chunks: seq<Bytes>): Bytes {
    if chunks == [] then [] else chunks[0] + Join(chunks[1..])
  }

  predicate Terminated(chunk: seq<int>) { chunk != [] && (chunk[|chunk| - 1] == LF || chunk[|chunk| - 1] == CR) }

  /** The terminator of the last terminated chunk. */
  function LastNewline(chunks: seq<Bytes>, newline: Bytes): Bytes {
    if chunks == [] then newline else LastNewline(chunks[1..], NextNewline(chunks[0], newline))
  }

  function NextNewline(chunk: Bytes, newline: Bytes): Bytes {
    if |chunk| >= 2 && chunk[|chunk| - 2..] == [CR, LF] then [CR, LF]
    else if chunk != [] && chunk[|chunk| - 1] == LF then [LF]
    else if chunk != [] && chunk[|chunk| - 1] == CR then [CR]
    else newline
  }

  /** Every chunk but the second and later ones that name the mod. */
  function KeepFirst(m: Mod, chunks: seq<Bytes>, found: bool): seq<Bytes> {
    if chunks == [] then []
    else if ChunkNames(m, chunks[0]) then (if found then [] else [chunks[0]]) + KeepFirst(m, chunks[1..], true)
    else [chunks[0]] + KeepFirst(m, chunks[1..], found)
  }

  predicate AnyNames(m: Mod, chunks: seq<Bytes>) { exists i :: 0 <= i < |chunks| && ChunkNames(m, chunks[i]) }

  predicate AllDecode(chunks: seq<Bytes>) { forall i :: 0 <= i < |chunks| ==> Decode(chunks[i]).Some? }

  /** The chunks written back: the kept ones, and a line for the mod where none named it. */
  function FinalChunks(m: Mod, chunks: seq<Bytes>): seq<Bytes> {
    var kept := KeepFirst(m, chunks, false);
    var newline := LastNewline(chunks, [CR, LF]);
    if AnyNames(m, chunks) then kept
    else if kept != [] && !Terminated(kept[|kept| - 1]) then kept + [newline, m.id + newline]
    else kept + [m.id + newline]
  }

  function Verify(m: Mod, content: Bytes): Result<(), OrderError> {
    match Decode(PayloadOf(content))
    case None => Err(InvalidUtf8)
    case Some(t) => if Hits(m, Entries(t, true)) == 1 then Ok(()) else Err(NotExactlyOneEntry)
  }

  function Edit(m: Mod, original: Bytes): Result<Bytes, OrderError> {
    var chunks := Lines(PayloadOf(original), false);
    if !AllDecode(chunks) then Err(InvalidUtf8)
    else
      var result := BomOf(original) + Join(FinalChunks(m, chunks));
      match Verify(m, result)
      case Ok(_) => Ok(result)
      case Err(e) => Err(e)
  }

  /** One turn of the editor's loop, as the specification sees it. */
  lemma KeepStep(m: Mod, chunks: seq<Bytes>, i: nat, found: bool, newline: Bytes)
    requires i < |chunks|
    ensures var c, rest := chunks[i], chunks[i + 1..];
      && KeepFirst(m, chunks[i..], found) ==
         (if ChunkNames(m, c) && found then [] else [c]) + KeepFirst(m, rest, found || ChunkNames(m, c))
      && LastNewline(chunks[i..], newline) == LastNewline(rest, NextNewline(c, newline))
      && (AnyNames(m, chunks[..i + 1]) <==> AnyNames(m, chunks[..i]) || ChunkNames(m, c))
  {
    hide ChunkNames, NextNewline;
    assert chunks[i..][0] == chunks[i] && chunks[i..][1..] == chunks[i + 1..];
    assert forall k :: 0 <= k < i ==> chunks[..i + 1][k] == chunks[..i][k];
    assert chunks[..i + 1][i] == chunks[i];
  }

  /** The editor's loop over the chunks. */
  method KeepChunks(m: Mod, chunks: seq<Bytes>) returns (kept: seq<Bytes>, found: bool, newline: Bytes)
    ensures kept == KeepFirst(m, chunks, false)
    ensures found == AnyNames(m, chunks)
    ensures newline == LastNewline(chunks, [CR, LF])
  {
    hide *;
    kept, found, newline := [], false, [CR, LF];
    var i := 0;
    NoMoreChunks(m, found, newline);
    assert chunks[..0] == [] && chunks[0..] == chunks;
    while i < |chunks|
      invariant 0 <= i <= |chunks|
      invariant kept + KeepFirst(m, chunks[i..], found) == KeepFirst(m, chunks, false)
      invariant found <==> AnyNames(m, chunks[..i])
      invariant LastNewline(chunks[i..], newline) == LastNewline(chunks, [CR, LF])
    {
      var chunk := chunks[i];
      KeepStep(m, chunks, i, found, newline);
      newline := NextNewline(chunk, newline);
      if !ChunkNames(m, chunk) {
        kept := kept + [chunk];
      } else if !found {
        kept, found := kept + [chunk], true;
      }
      i := i + 1;
    }
    assert chunks[i..] == [] && chunks[..i] == chunks;
    NoMoreChunks(m, found, newline);
  }

  lemma NoMoreChunks(m: Mod, found: bool, newline: Bytes)
    ensures KeepFirst(m, [], found) == [] && LastNewline([], newline) == newline && !AnyNames(m, [])
  {
  }

  /** `_ensure_exactly_one_order_entry`. */
  method EnsureExactlyOneOrderEntry(m: Mod, original: Bytes) returns (r: Result<Bytes, OrderError>)
    ensures r == Edit(m, original)
  {
    hide Decode, Lines, KeepFirst, LastNewline, Verify;
    var bom := if BOM <= original then BOM else [];
    var chunks := Lines(original[|bom|..], false);
    var decoded := 0;
    while decoded < |chunks|
      invariant 0 <= decoded <= |chunks|
      invariant forall k :: 0 <= k < decoded ==> Decode(chunks[k]).Some?
    {
      if Decode(chunks[decoded]).None? {
        return Err(InvalidUtf8);
      }
      decoded := decoded + 1;
    }
    var kept, found, newline := KeepChunks(m, chunks);
    if !found {
      if kept != [] && !Terminated(kept[|kept| - 1]) {
        kept := kept + [newline];
      }
      kept := kept + [m.id + newline];
    }
    assert kept == FinalChunks(m, chunks);
    var result := bom + Join(kept);
    r := match Verify(m, result)
      case Ok(_) => Ok(result)
      case Err(e) => Err(e);
  }
}
