/** What the load-order editor guarantees, for every file and every registered mod id. */
module ModOrderProofs {
  import opened Wrappers
  import opened ModOrder

  // ----- decoding and line ends -----

  lemma DecodeStep(s: Bytes)
    requires s != []
    ensures Decode(s).Some? <==> DecodeOne(s).Some? && Decode(s[DecodeOne(s).value.1..]).Some?
    ensures Decode(s).Some? ==> TextOf(s) == [DecodeOne(s).value.0] + TextOf(s[DecodeOne(s).value.1..])
  {
  }

  lemma DecodeOnePrefix(a: Bytes, b: Bytes)
    requires a != [] && DecodeOne(a).Some?
    ensures DecodeOne(a + b) == DecodeOne(a)
  {
  }

  lemma DecodeOfSome(s: Bytes)
    ensures Decode(s).Some? ==> Decode(s) == Some(TextOf(s))
    ensures Decode([]) == Some([]) && TextOf([]) == []
  {
  }

  /** Strict decoding is compositional. */
  lemma {:induction false} DecodeConcat(a: Bytes, b: Bytes)
    requires Decode(a).Some?
    ensures Decode(a + b).Some? <==> Decode(b).Some?
    ensures Decode(b).Some? ==> TextOf(a + b) == TextOf(a) + TextOf(b)
    decreases |a|
  {
    hide Decode, TextOf, DecodeOne;
    if a == [] {
      assert a + b == b;
      DecodeOfSome(a);
    } else {
      DecodeStep(a);
      DecodeStep(a + b);
      DecodeOnePrefix(a, b);
      var n := DecodeOne(a).value.1;
      assert (a + b)[n..] == a[n..] + b;
      DecodeConcat(a[n..], b);
    }
  }

  /** The first `n` bytes decode to the first `k` characters, and the rest to the rest. */
  ghost predicate SplitsAt(s: Bytes, n: nat, t: Text, k: nat)
    requires n <= |s|
  {
    && k <= |t| && Decode(s[..n]).Some? && Decode(s[n..]).Some?
    && TextOf(s[..n]) == t[..k] && TextOf(s[n..]) == t[k..]
  }

  lemma {:induction false} SplitOff(s: Bytes, n: nat)
    requires n <= |s| && Decode(s[..n]).Some? && Decode(s).Some?
    ensures |TextOf(s[..n])| <= |TextOf(s)| && SplitsAt(s, n, TextOf(s), |TextOf(s[..n])|)
  {
    hide Decode, TextOf;
    assert s == s[..n] + s[n..];
    DecodeConcat(s[..n], s[n..]);
  }

  lemma DecodeSingle(s: Bytes)
    requires s != [] && DecodeOne(s).Some? && DecodeOne(s).value.1 == |s|
    ensures Decode(s).Some? && TextOf(s) == [DecodeOne(s).value.0]
  {
    hide TextOf, DecodeOne, Decode;
    DecodeStep(s);
    DecodeOfSome(s);
    assert s[|s|..] == [];
  }

  lemma DecodeOneTake(s: Bytes)
    requires s != [] && DecodeOne(s).Some?
    ensures DecodeOne(s[..DecodeOne(s).value.1]) == DecodeOne(s)
    ensures forall i :: 0 <= i < DecodeOne(s).value.1 && DecodeOne(s).value.1 > 1 ==> s[i] >= 0x80
    ensures DecodeOne(s).value.1 == 1 ==> DecodeOne(s).value.0 == s[0] < 0x80
    ensures DecodeOne(s).value.1 > 1 ==> DecodeOne(s).value.0 >= 0x80
  {
  }

  /** The first byte line decodes to the first text line. */
  lemma {:induction false} FirstLineDecodes(s: Bytes)
    requires s != [] && Decode(s).Some?
    ensures TextOf(s) != []
    ensures SplitsAt(s, LineEnd(s, false), TextOf(s), LineEnd(TextOf(s), false))
    decreases |s|
  {
    hide Decode, TextOf, DecodeOne;
    DecodeStep(s);
    DecodeOneTake(s);
    var (c, w) := DecodeOne(s).value;
    var t := TextOf(s);
    DecodeSingle(s[..w]);
    SplitOff(s, w);
    if |s| == w {
      DecodeOfSome(s);
      assert s[w..] == [];
      FirstLineLast(s, w);
    } else {
      SameFirst(s[w..]);
      if c == CR && s[w] == LF {
        FirstLineCrLf(s);
      } else if c != CR && c != LF {
        FirstLineDecodes(s[w..]);
        FirstLineLonger(s, w);
      }
    }
  }

  lemma FirstLineLonger(s: Bytes, w: nat)
    requires w < |s| && Decode(s).Some? && |TextOf(s)| > 1 && TextOf(s)[0] != CR && TextOf(s)[0] != LF
    requires forall i :: 0 <= i < w ==> s[i] != CR && s[i] != LF
    requires w >= 1 && SplitsAt(s, w, TextOf(s), 1)
    requires SplitsAt(s[w..], LineEnd(s[w..], false), TextOf(s)[1..], LineEnd(TextOf(s)[1..], false))
    ensures SplitsAt(s, LineEnd(s, false), TextOf(s), LineEnd(TextOf(s), false))
  {
    hide Decode, TextOf, SplitsAt;
    SkipPlain(s, w);
    ExtendLine(s, w, LineEnd(s[w..], false), LineEnd(TextOf(s)[1..], false));
  }

  lemma FirstLineLast(s: Bytes, w: nat)
    requires s != [] && w == |s| && Decode(s).Some? && |TextOf(s)| == 1
    requires forall i :: 0 <= i < w && w > 1 ==> s[i] >= 0x80
    ensures SplitsAt(s, LineEnd(s, false), TextOf(s), LineEnd(TextOf(s), false))
  {
    hide Decode, TextOf;
    if w > 1 { SkipPlain(s, w); }
    assert s[..w] == s && s[w..] == [] && TextOf(s)[..1] == TextOf(s);
    DecodeOfSome(s);
  }

  lemma {:induction false} FirstLineCrLf(s: Bytes)
    requires |s| > 1 && s[0] == CR && s[1] == LF && Decode(s).Some?
    ensures |TextOf(s)| > 1 && TextOf(s)[0] == CR && TextOf(s)[1] == LF && SplitsAt(s, 2, TextOf(s), 2)
  {
    DecodeSingle([CR]);
    DecodeSingle([LF]);
    hide Decode, TextOf;
    DecodeConcat([CR], [LF]);
    assert [CR] + [LF] == s[..2];
    SplitOff(s, 2);
    assert TextOf(s)[..2][0] == CR && TextOf(s)[..2][1] == LF;
  }

  lemma {:induction false} ExtendLine(s: Bytes, w: nat, n: nat, k: nat)
    requires w + n <= |s| && Decode(s).Some? && TextOf(s) != []
    requires SplitsAt(s, w, TextOf(s), 1) && SplitsAt(s[w..], n, TextOf(s)[1..], k)
    ensures SplitsAt(s, w + n, TextOf(s), 1 + k)
  {
    hide Decode, TextOf;
    assert s[..w + n] == s[..w] + s[w..][..n] && s[w + n..] == s[w..][n..];
    DecodeConcat(s[..w], s[w..][..n]);
    assert TextOf(s)[..1 + k] == TextOf(s)[..1] + TextOf(s)[1..][..k];
  }

  lemma SameFirst(s: Bytes)
    requires s != [] && Decode(s).Some?
    ensures TextOf(s) != [] && (TextOf(s)[0] == LF <==> s[0] == LF)
  {
    assert TextOf(s) == [DecodeOne(s).value.0] + TextOf(s[DecodeOne(s).value.1..]);
  }

  /** A run of bytes that holds no terminator lies inside one line. */
  lemma {:induction false} SkipPlain(s: Bytes, w: nat)
    requires 1 <= w <= |s|
    requires forall i :: 0 <= i < w ==> s[i] != LF && s[i] != CR
    ensures LineEnd(s, false) == if |s| == w then w else w + LineEnd(s[w..], false)
    decreases w
  {
    if w > 1 {
      SkipPlain(s[1..], w - 1);
      assert s[1..][w - 1..] == s[w..];
    }
  }

  predicate StartsWithNewline(b: seq<int>) { b != [] && (b[0] == CR || b[0] == LF) }

  /** A cut that no line of the joined text spans, but for its terminator. */
  predicate CleanCut(a: seq<int>, b: seq<int>) { a == [] || Terminated(a) || StartsWithNewline(b) }

  /** Whether the last line of `a` takes its terminator, or the LF after its CR, from `b`. */
  predicate Glues(a: seq<int>, b: seq<int>, wide: bool)
    requires a != []
  {
    b != [] && (!IsBreak(a[|a| - 1], wide) || (a[|a| - 1] == CR && b[0] == LF))
  }

  lemma {:induction false} LineEndConcat(a: seq<int>, b: seq<int>, wide: bool)
    requires a != [] && CleanCut(a, b)
    ensures LineEnd(a + b, wide) ==
      if LineEnd(a, wide) == |a| && Glues(a, b, wide) then |a| + LineEnd(b, wide) else LineEnd(a, wide)
    decreases |a|
  {
    if a[0] == CR && |a| > 1 && a[1] == LF {
    } else if IsBreak(a[0], wide) {
    } else {
      assert (a + b)[1..] == a[1..] + b;
      if |a| > 1 { LineEndConcat(a[1..], b, wide); }
    }
  }

  /** A line is itself one line, and it ends in a break unless the text ends there. */
  lemma {:induction false} LineIsOneLine(s: seq<int>, wide: bool)
    requires s != []
    ensures var n := LineEnd(s, wide);
      LineEnd(s[..n], wide) == n && (n < |s| ==> IsBreak(s[n - 1], wide))
    decreases |s|
  {
    var n := LineEnd(s, wide);
    if s[0] == CR && |s| > 1 && s[1] == LF {
    } else if IsBreak(s[0], wide) || |s| == 1 {
    } else {
      LineIsOneLine(s[1..], wide);
      assert s[..n][1..] == s[1..][..n - 1];
    }
  }

  // ----- stripping -----

  /** Stripping cuts a blank prefix and a blank suffix, and nothing more. */
  lemma {:induction false} StripBounds(t: Text) returns (i: nat, j: nat)
    ensures i <= j <= |t| && Strip(t) == t[i..j]
    ensures forall k :: 0 <= k < i || j <= k < |t| ==> IsSpace(t[k])
    ensures i < j ==> !IsSpace(t[i]) && !IsSpace(t[j - 1])
  {
    i := LeftBound(t);
    j := RightBound(StripLeft(t));
    assert t[i..][..j] == t[i..i + j];
    assert forall k :: i <= k < |t| ==> t[k] == t[i..][k - i];
    j := i + j;
  }

  lemma {:induction false} LeftBound(t: Text) returns (i: nat)
    ensures i <= |t| && StripLeft(t) == t[i..] && (i < |t| ==> !IsSpace(t[i]))
    ensures forall k :: 0 <= k < i ==> IsSpace(t[k])
    decreases |t|
  {
    if t != [] && IsSpace(t[0]) {
      i := LeftBound(t[1..]);
      assert t[1..][i..] == t[i + 1..];
      assert forall k :: 1 <= k < |t| ==> t[k] == t[1..][k - 1];
      i := i + 1;
    } else {
      i := 0;
    }
  }

  lemma {:induction false} RightBound(t: Text) returns (j: nat)
    ensures j <= |t| && StripRight(t) == t[..j] && (0 < j ==> !IsSpace(t[j - 1]))
    ensures forall k :: j <= k < |t| ==> IsSpace(t[k])
    decreases |t|
  {
    if t != [] && IsSpace(t[|t| - 1]) {
      j := RightBound(t[..|t| - 1]);
      assert t[..|t| - 1][..j] == t[..j];
      assert forall k :: 0 <= k < |t| - 1 ==> t[k] == t[..|t| - 1][k];
    } else {
      j := |t|;
      assert t[..j] == t;
    }
  }

  /** Blank text around a text does not change what stripping leaves. */
  lemma {:induction false} StripPadded(l: Text, t: Text, r: Text)
    requires Blank(l) && Blank(r)
    ensures Strip(l + t + r) == Strip(t)
  {
    var i, j := StripBounds(t);
    var whole := l + t + r;
    var i', j' := StripBounds(whole);
    assert forall k {:trigger t[k]} :: 0 <= k < |t| ==> whole[|l| + k] == t[k];
    assert forall k :: 0 <= k < |l| ==> whole[k] == l[k];
    assert forall k :: |l| + |t| <= k < |whole| ==> whole[k] == r[k - |l| - |t|];
    if i < j {
      assert !IsSpace(whole[|l| + i]) && !IsSpace(whole[|l| + j - 1]);
      assert i' == |l| + i && j' == |l| + j;
    } else {
      assert forall k :: 0 <= k < |whole| ==> IsSpace(whole[k]);
    }
  }

  lemma StripBlank(t: Text)
    requires Blank(t)
    ensures Strip(t) == []
  {
    assert [] + [] + t == t;
    StripPadded([], [], t);
  }

  lemma {:induction false} BlankIffStripEmpty(t: Text)
    ensures Blank(t) <==> Strip(t) == []
  {
    if Strip(t) == [] {
      var i, j := StripBounds(t);
    } else if Blank(t) {
      StripBlank(t);
    }
  }

  // ----- entries -----

  lemma {:induction false} EntriesOfBlank(t: Text, wide: bool)
    requires Blank(t)
    ensures Entries(t, wide) == []
    decreases |t|
  {
    if t != [] {
      StripBlank(t[..LineEnd(t, wide)]);
      EntriesOfBlank(t[LineEnd(t, wide)..], wide);
    }
  }

  lemma EntriesStep(l: Text, r: Text, wide: bool)
    requires l != [] && LineEnd(l + r, wide) == |l|
    ensures Entries(l + r, wide) == Entry(l) + Entries(r, wide)
  {
    hide Entry, LineEnd;
    assert (l + r)[..|l|] == l && (l + r)[|l|..] == r;
  }

  lemma CutTail(a: seq<int>, b: seq<int>, n: nat)
    requires n <= |a| && CleanCut(a, b)
    ensures CleanCut(a[n..], b)
  {
    if n < |a| { assert a[n..][|a| - n - 1] == a[|a| - 1]; }
  }

  /**
   Entries are compositional at a clean cut. In particular, where deleting a line puts a bare CR
   in front of an LF, the two merge into one terminator and only a blank line disappears.
   */
  lemma {:induction false} EntriesConcat(a: Text, b: Text, wide: bool)
    requires CleanCut(a, b)
    ensures Entries(a + b, wide) == Entries(a, wide) + Entries(b, wide)
    decreases |a|
  {
    hide Entry, LineEnd, Entries, Glues, CleanCut;
    if a == [] {
      assert a + b == b && Entries(a, wide) == [] by { EntriesOfBlank(a, wide); }
    } else {
      var n := LineEnd(a, wide);
      var l, r := a[..n], a[n..];
      LineEndConcat(a, b, wide);
      if n == |a| && Glues(a, b, wide) {
        GlueNeedsNewline(a, b, wide);
        GluedLine(a, b, wide);
      } else {
        CutTail(a, b, n);
        EntriesConcat(r, b, wide);
        assert a == l + r && a + b == l + (r + b);
        EntriesStep(l, r, wide);
        EntriesStep(l, r + b, wide);
      }
    }
  }

  lemma GlueNeedsNewline(a: Text, b: Text, wide: bool)
    requires a != [] && CleanCut(a, b) && Glues(a, b, wide)
    ensures StartsWithNewline(b)
  {
  }

  lemma {:induction false} GluedLine(a: Text, b: Text, wide: bool)
    requires a != [] && StartsWithNewline(b) && LineEnd(a, wide) == |a|
    requires LineEnd(a + b, wide) == |a| + LineEnd(b, wide)
    ensures Entries(a + b, wide) == Entries(a, wide) + Entries(b, wide)
  {
    hide Strip, LineEnd, Entries, Entry;
    var k := LineEnd(b, wide);
    var newline, rest := b[..k], b[k..];
    NewlineIsBlank(b, wide);
    assert b == newline + rest && a + b == (a + newline) + rest && a + [] == a;
    EntriesStep(a + newline, rest, wide);
    EntriesStep(newline, rest, wide);
    EntriesStep(a, [], wide);
    EntriesOfBlank([], wide);
    assert [] + a + newline == a + newline;
    SameEntry(a, newline);
  }

  lemma NewlineIsBlank(b: Text, wide: bool)
    requires StartsWithNewline(b)
    ensures Blank(b[..LineEnd(b, wide)])
  {
  }

  lemma SameEntry(a: Text, newline: Text)
    requires Blank(newline)
    ensures Entry([] + a + newline) == Entry(a) && Entry(newline) == []
  {
    hide Strip;
    StripPadded([], a, newline);
    StripBlank(newline);
  }

  /** A text that strips to something without a line break inside holds exactly that entry. */
  lemma {:induction false} OneEntry(t: Text, wide: bool)
    requires forall i :: 0 <= i < |Strip(t)| ==> !IsBreak(Strip(t)[i], wide)
    ensures Entries(t, wide) == Entry(t)
    decreases |t|
  {
    if t == [] {
    } else {
      var n := LineEnd(t, wide);
      var l, r := t[..n], t[n..];
      assert t == l + r;
      BlankIffStripEmpty(l);
      BlankIffStripEmpty(r);
      if Blank(l) {
        assert l + r + [] == t;
        StripPadded(l, r, []);
        OneEntry(r, wide);
      } else if Blank(r) {
        assert [] + l + r == t;
        StripPadded([], l, r);
        EntriesOfBlank(r, wide);
      } else {
        LineIsOneLine(t, wide);
        BreakInside(l, r, wide);
        assert false;
      }
    }
  }

  /** A break between two non-blank halves survives stripping. */
  lemma {:induction false} BreakInside(l: Text, r: Text, wide: bool)
    requires l != [] && IsBreak(l[|l| - 1], wide) && !Blank(l) && !Blank(r)
    ensures exists i :: 0 <= i < |Strip(l + r)| && IsBreak(Strip(l + r)[i], wide)
  {
    var t := l + r;
    var i, j := StripBounds(t);
    var p :| 0 <= p < |l| && !IsSpace(l[p]);
    var q :| 0 <= q < |r| && !IsSpace(r[q]);
    assert t[p] == l[p] && t[|l| + q] == r[q];
    assert i <= p && |l| + q < j;
    assert Strip(t)[|l| - 1 - i] == t[|l| - 1];
  }

  // ----- naming -----

  lemma {:induction false} FoldFixes(m: Mod, t: Text)
    requires ValidMod(m) && forall i :: 0 <= i < |t| ==> IsModChar(t[i]) || IsSpace(t[i])
    ensures CaseFold(m, t) == t
    decreases |t|
  {
    if t != [] { FoldFixes(m, t[1..]); }
  }

  lemma {:induction false} FoldKeepsSpace(m: Mod, t: Text, i: nat)
    requires ValidMod(m) && i < |t| && IsSpace(t[i])
    ensures t[i] in CaseFold(m, t)
    decreases |t|
  {
    if i > 0 { FoldKeepsSpace(m, t[1..], i - 1); }
    else { assert m.fold(t[0]) == [t[0]]; }
  }

  /** A text that names the mod holds exactly one entry, for either splitter. */
  lemma {:induction false} NamingTextIsOneEntry(m: Mod, t: Text, wide: bool)
    requires ValidMod(m) && Names(m, Strip(t))
    ensures Entries(t, wide) == [Strip(t)]
  {
    FoldFixes(m, m.id);
    var s := Strip(t);
    forall i | 0 <= i < |s| ensures !IsBreak(s[i], wide) {
      if IsSpace(s[i]) { FoldKeepsSpace(m, s, i); }
    }
    OneEntry(t, wide);
  }

  lemma {:induction false} CountsConcat(m: Mod, a: seq<Text>, b: seq<Text>)
    ensures Hits(m, a + b) == Hits(m, a) + Hits(m, b) && Others(m, a + b) == Others(m, a) + Others(m, b)
    decreases |a|
  {
    if a == [] {
      assert a + b == b;
    } else {
      assert (a + b)[1..] == a[1..] + b;
      CountsConcat(m, a[1..], b);
    }
  }

  // ----- chunk lists -----

  /** Every chunk decodes, and every chunk but the last is terminated. */
  predicate ChunkList(chunks: seq<Bytes>) {
    && AllDecode(chunks)
    && forall i :: 0 <= i < |chunks| - 1 ==> Terminated(chunks[i])
  }

  /** As `ChunkList`, but a chunk may also leave its terminator to the next one. */
  predicate Separated(chunks: seq<Bytes>) {
    && AllDecode(chunks)
    && forall i :: 0 <= i < |chunks| - 1 ==> Terminated(chunks[i]) || StartsWithNewline(chunks[i + 1])
  }

  function AllEntries(chunks: seq<Bytes>, wide: bool): seq<Text> {
    if chunks == [] then [] else Entries(TextOf(chunks[0]), wide) + AllEntries(chunks[1..], wide)
  }

  lemma {:induction false} TerminatedText(s: Bytes)
    requires Terminated(s) && Decode(s).Some?
    ensures Terminated(TextOf(s))
    decreases |s|
  {
    var (c, w) := DecodeOne(s).value;
    assert TextOf(s) == [c] + TextOf(s[w..]);
    if w < |s| { TerminatedText(s[w..]); }
  }

  /** Joining chunks and splitting again finds the entries of the chunks. */
  lemma {:induction false} EntriesOfJoin(chunks: seq<Bytes>, wide: bool)
    requires Separated(chunks)
    ensures Decode(Join(chunks)).Some?
    ensures Entries(TextOf(Join(chunks)), wide) == AllEntries(chunks, wide)
    decreases |chunks|
  {
    if chunks != [] {
      var a, rest := chunks[0], chunks[1..];
      EntriesOfJoin(rest, wide);
      DecodeConcat(a, Join(rest));
      if |chunks| == 1 {
        assert rest == [] && a + Join(rest) == a;
      } else {
        JoinCut(chunks);
        EntriesConcat(TextOf(a), TextOf(Join(rest)), wide);
      }
    }
  }

  lemma {:induction false} JoinCut(chunks: seq<Bytes>)
    requires |chunks| > 1 && Separated(chunks) && Decode(Join(chunks[1..])).Some?
    ensures CleanCut(TextOf(chunks[0]), TextOf(Join(chunks[1..])))
  {
    var a, rest := chunks[0], Join(chunks[1..]);
    if Terminated(a) {
      TerminatedText(a);
    } else {
      assert rest == chunks[1] + Join(chunks[1..][1..]);
      assert TextOf(rest) == [DecodeOne(rest).value.0] + TextOf(rest[DecodeOne(rest).value.1..]);
    }
  }

  // ----- the lines of a file -----

  /** The text of each chunk is one line of the byte splitter. */
  predicate OneLineEach(chunks: seq<Bytes>) {
    forall i :: 0 <= i < |chunks| ==> TextOf(chunks[i]) != [] && LineEnd(TextOf(chunks[i]), false) == |TextOf(chunks[i])|
  }

  lemma {:induction false} JoinOfLines(s: Bytes)
    ensures Join(Lines(s, false)) == s
    ensures forall i :: 0 <= i < |Lines(s, false)| - 1 ==> Terminated(Lines(s, false)[i])
    decreases |s|
  {
    if s != [] {
      var n := LineEnd(s, false);
      JoinOfLines(s[n..]);
      LineIsOneLine(s, false);
      assert s == s[..n] + s[n..];
    }
  }

  /** A file is valid UTF-8 exactly when each of its lines is. */
  lemma {:induction false} DecodesByLine(s: Bytes)
    ensures Decode(s).Some? <==> AllDecode(Lines(s, false))
    ensures Decode(s).Some? ==> ChunkList(Lines(s, false)) && OneLineEach(Lines(s, false))
    decreases |s|
  {
    hide Decode, Lines, TextOf, LineEnd, Join;
    JoinOfLines(s);
    if AllDecode(Lines(s, false)) {
      EntriesOfJoin(Lines(s, false), false);
    }
    if Decode(s).Some? {
      LinesDecode(s);
    }
  }

  lemma {:induction false} LinesDecode(s: Bytes)
    requires Decode(s).Some?
    ensures AllDecode(Lines(s, false)) && OneLineEach(Lines(s, false))
    decreases |s|
  {
    if s != [] {
      hide Decode, TextOf, LineEnd;
      var n := LineEnd(s, false);
      FirstLineDecodes(s);
      LinesDecode(s[n..]);
      LineIsOneLine(TextOf(s), false);
      assert Lines(s, false) == [s[..n]] + Lines(s[n..], false);
    }
  }

  // ----- counting what the editor writes -----

  /** Entries naming the mod that sit, behind exotic separators, in lines that do not name it. */
  function Hidden(m: Mod, chunks: seq<Bytes>): nat {
    if chunks == [] then 0
    else (if ChunkNames(m, chunks[0]) then 0 else Hits(m, Entries(TextOf(chunks[0]), true))) + Hidden(m, chunks[1..])
  }

  function Naming(m: Mod, chunks: seq<Bytes>): nat {
    if chunks == [] then 0 else (if ChunkNames(m, chunks[0]) then 1 else 0) + Naming(m, chunks[1..])
  }

  lemma {:induction false} NamingChunk(m: Mod, chunk: Bytes, wide: bool)
    requires ValidMod(m) && ChunkNames(m, chunk)
    ensures Hits(m, Entries(TextOf(chunk), wide)) == 1 && Others(m, Entries(TextOf(chunk), wide)) == []
  {
    NamingTextIsOneEntry(m, TextOf(chunk), wide);
    var e := Strip(TextOf(chunk));
    assert [e][1..] == [];
  }

  lemma {:induction false} CountChunks(m: Mod, chunks: seq<Bytes>)
    requires ValidMod(m)
    ensures Hits(m, AllEntries(chunks, true)) == Hidden(m, chunks) + Naming(m, chunks)
  {
    if chunks == [] {
      NoChunks(m);
    } else {
      hide *;
      var c, rest := chunks[0], chunks[1..];
      CountChunks(m, rest);
      assert chunks == [c] + rest;
      ChunkStep(m, c, rest, false);
      CountsCons(m, c, rest, true);
      if ChunkNames(m, c) { NamingChunk(m, c, true); }
    }
  }

  lemma {:induction false} CountLines(m: Mod, chunks: seq<Bytes>)
    requires ValidMod(m) && OneLineEach(chunks)
    ensures Hits(m, AllEntries(chunks, false)) == Naming(m, chunks)
  {
    if chunks == [] {
      NoChunks(m);
    } else {
      hide *;
      var c, rest := chunks[0], chunks[1..];
      OneLineEachHead(chunks);
      CountLines(m, rest);
      assert chunks == [c] + rest;
      ChunkStep(m, c, rest, false);
      CountsCons(m, c, rest, false);
      if ChunkNames(m, c) { NamingChunk(m, c, false); } else { OtherLine(m, c); }
    }
  }

  lemma OneLineEachHead(chunks: seq<Bytes>)
    requires chunks != [] && OneLineEach(chunks)
    ensures OneLineEach(chunks[1..]) && TextOf(chunks[0]) != [] && LineEnd(TextOf(chunks[0]), false) == |TextOf(chunks[0])|
  {
    hide TextOf, LineEnd;
  }

  lemma {:induction false} OtherLine(m: Mod, c: Bytes)
    requires TextOf(c) != [] && LineEnd(TextOf(c), false) == |TextOf(c)| && !ChunkNames(m, c)
    ensures Hits(m, Entries(TextOf(c), false)) == 0
  {
    var t := TextOf(c);
    assert t[..|t|] == t && t[|t|..] == [];
    assert Entries(t, false) == Entry(t);
  }

  lemma {:induction false} CountsCons(m: Mod, c: Bytes, rest: seq<Bytes>, wide: bool)
    ensures Hits(m, AllEntries([c] + rest, wide)) == Hits(m, Entries(TextOf(c), wide)) + Hits(m, AllEntries(rest, wide))
    ensures Others(m, AllEntries([c] + rest, wide)) == Others(m, Entries(TextOf(c), wide)) + Others(m, AllEntries(rest, wide))
  {
    hide Entries, TextOf;
    assert ([c] + rest)[1..] == rest;
    CountsConcat(m, Entries(TextOf(c), wide), AllEntries(rest, wide));
  }

  lemma {:induction false} KeepHits(m: Mod, chunks: seq<Bytes>, found: bool)
    requires ValidMod(m)
    ensures Hits(m, AllEntries(KeepFirst(m, chunks, found), true)) ==
      Hidden(m, chunks) + (if !found && Naming(m, chunks) > 0 then 1 else 0)
    decreases |chunks|
  {
    if chunks == [] {
      NoMoreChunks(m, found, []);
    } else {
      hide *;
      var c, rest := chunks[0], chunks[1..];
      var later := KeepFirst(m, rest, found || ChunkNames(m, c));
      KeepHits(m, rest, found || ChunkNames(m, c));
      assert chunks == [c] + rest;
      ChunkStep(m, c, rest, found);
      if ChunkNames(m, c) && found {
        assert KeepFirst(m, chunks, found) == later;
      } else {
        assert KeepFirst(m, chunks, found) == [c] + later;
        CountsCons(m, c, later, true);
        if ChunkNames(m, c) { NamingChunk(m, c, true); }
      }
    }
  }

  lemma {:induction false} KeepOthers(m: Mod, chunks: seq<Bytes>, found: bool)
    requires ValidMod(m)
    ensures Others(m, AllEntries(KeepFirst(m, chunks, found), true)) == Others(m, AllEntries(chunks, true))
    decreases |chunks|
  {
    if chunks == [] {
      NoMoreChunks(m, found, []);
    } else {
      hide *;
      var c, rest := chunks[0], chunks[1..];
      var later := KeepFirst(m, rest, found || ChunkNames(m, c));
      KeepOthers(m, rest, found || ChunkNames(m, c));
      assert chunks == [c] + rest;
      ChunkStep(m, c, rest, found);
      CountsCons(m, c, rest, true);
      if ChunkNames(m, c) && found {
        NamingChunk(m, c, true);
        assert KeepFirst(m, chunks, found) == later;
        assert [] + Others(m, AllEntries(rest, true)) == Others(m, AllEntries(rest, true));
      } else {
        assert KeepFirst(m, chunks, found) == [c] + later;
        CountsCons(m, c, later, true);
      }
    }
  }

  lemma ChunkStep(m: Mod, c: Bytes, rest: seq<Bytes>, found: bool)
    ensures KeepFirst(m, [c] + rest, found) ==
      (if ChunkNames(m, c) && found then [] else [c]) + KeepFirst(m, rest, found || ChunkNames(m, c))
    ensures Naming(m, [c] + rest) == (if ChunkNames(m, c) then 1 else 0) + Naming(m, rest)
    ensures Hidden(m, [c] + rest) ==
      (if ChunkNames(m, c) then 0 else Hits(m, Entries(TextOf(c), true))) + Hidden(m, rest)
  {
    hide ChunkNames, Entries, Hits, TextOf;
    assert ([c] + rest)[1..] == rest;
  }

  lemma ChunkListCons(c: Bytes, rest: seq<Bytes>)
    requires Decode(c).Some? && ChunkList(rest) && (rest != [] ==> Terminated(c))
    ensures ChunkList([c] + rest)
  {
    hide Decode, Terminated;
  }

  lemma ChunkListTail(chunks: seq<Bytes>)
    requires ChunkList(chunks) && chunks != []
    ensures ChunkList(chunks[1..]) && Decode(chunks[0]).Some? && (chunks[1..] != [] ==> Terminated(chunks[0]))
  {
    hide Decode, Terminated;
  }

  lemma {:induction false} KeepIsChunkList(m: Mod, chunks: seq<Bytes>, found: bool)
    requires ChunkList(chunks)
    ensures ChunkList(KeepFirst(m, chunks, found))
    ensures KeepFirst(m, chunks, found) != [] ==> chunks != []
    decreases |chunks|
  {
    if chunks != [] {
      hide ChunkNames, ChunkList;
      ChunkListTail(chunks);
      var later := KeepFirst(m, chunks[1..], found || ChunkNames(m, chunks[0]));
      KeepIsChunkList(m, chunks[1..], found || ChunkNames(m, chunks[0]));
      ChunkListCons(chunks[0], later);
      assert KeepFirst(m, chunks, found) == later || KeepFirst(m, chunks, found) == [chunks[0]] + later;
    }
  }

  /** The first chunk is always kept, and so is a chunk that names the mod if there is one. */
  lemma {:induction false} KeepFirstHead(m: Mod, chunks: seq<Bytes>)
    requires chunks != []
    ensures var kept := KeepFirst(m, chunks, false); kept != [] && kept[0] == chunks[0]
    ensures AnyNames(m, chunks) ==> AnyNames(m, KeepFirst(m, chunks, false))
    decreases |chunks|
  {
    hide ChunkNames;
    var later := KeepFirst(m, chunks[1..], false);
    if !ChunkNames(m, chunks[0]) && AnyNames(m, chunks) {
      var k :| 0 <= k < |chunks| && ChunkNames(m, chunks[k]);
      assert chunks[1..][k - 1] == chunks[k];
      KeepFirstHead(m, chunks[1..]);
      var i :| 0 <= i < |later| && ChunkNames(m, later[i]);
      assert KeepFirst(m, chunks, false)[i + 1] == later[i];
    }
  }

  lemma {:induction false} NamingIsAny(m: Mod, chunks: seq<Bytes>)
    ensures Naming(m, chunks) > 0 <==> AnyNames(m, chunks)
  {
    if chunks != [] {
      hide ChunkNames;
      NamingIsAny(m, chunks[1..]);
      assert forall i :: 0 < i < |chunks| ==> chunks[i] == chunks[1..][i - 1];
    }
  }

  // ----- the appended line -----

  predicate IsNewline(s: Bytes) { s == [CR, LF] || s == [LF] || s == [CR] }

  lemma {:induction false} LastNewlineIsNewline(chunks: seq<Bytes>, newline: Bytes)
    requires IsNewline(newline)
    ensures IsNewline(LastNewline(chunks, newline))
  {
    if chunks != [] { LastNewlineIsNewline(chunks[1..], NextNewline(chunks[0], newline)); }
  }

  lemma {:induction false} AsciiDecodes(s: Bytes)
    requires forall i :: 0 <= i < |s| ==> 0 <= s[i] < 0x80
    ensures Decode(s).Some? && TextOf(s) == s
    decreases |s|
  {
    if s != [] {
      AsciiDecodes(s[1..]);
      assert [s[0]] + s[1..] == s;
    }
  }

  lemma {:induction false} StripModId(m: Mod, newline: Bytes)
    requires ValidMod(m) && IsNewline(newline)
    ensures Strip(m.id + newline) == m.id
  {
    assert [] + m.id + newline == m.id + newline;
    StripPadded([], m.id, newline);
    var i, j := StripBounds(m.id);
    assert IsModChar(m.id[0]) && IsModChar(m.id[|m.id| - 1]);
  }

  lemma {:induction false} AppendedLine(m: Mod, newline: Bytes)
    requires ValidMod(m) && IsNewline(newline)
    ensures Decode(newline).Some? && Terminated(newline) && StartsWithNewline(newline)
    ensures Entries(TextOf(newline), true) == []
    ensures Decode(m.id + newline).Some? && ChunkNames(m, m.id + newline)
  {
    hide Strip;
    assert forall i :: 0 <= i < |m.id| ==> IsModChar(m.id[i]);
    AsciiDecodes(newline);
    AsciiDecodes(m.id + newline);
    EntriesOfBlank(newline, true);
    StripModId(m, newline);
  }

  lemma {:induction false} AllEntriesConcat(a: seq<Bytes>, b: seq<Bytes>, wide: bool)
    ensures AllEntries(a + b, wide) == AllEntries(a, wide) + AllEntries(b, wide)
    decreases |a|
  {
    if a == [] { assert a + b == b; }
    else {
      hide Entries, TextOf;
      assert (a + b)[1..] == a[1..] + b;
      AllEntriesConcat(a[1..], b, wide);
    }
  }

  /** The chunks appended where no line names the mod count as one entry, the mod's. */
  lemma {:induction false} AppendedCounts(m: Mod, kept: seq<Bytes>, newline: Bytes)
    requires ValidMod(m) && IsNewline(newline) && ChunkList(kept)
    ensures var line := m.id + newline;
      var final := if kept != [] && !Terminated(kept[|kept| - 1]) then kept + [newline, line] else kept + [line];
      && Separated(final) && AnyNames(m, final)
      && Hits(m, AllEntries(final, true)) == Hits(m, AllEntries(kept, true)) + 1
      && Others(m, AllEntries(final, true)) == Others(m, AllEntries(kept, true))
  {
    hide Decode, ChunkNames, Entries, AllEntries, Hits, Others, Strip;
    AppendedLine(m, newline);
    var line := m.id + newline;
    NamingChunk(m, line, true);
    var none: seq<Bytes> := [];
    assert [line] == [line] + none && [newline, line] == [newline] + [line];
    NoChunks(m);
    CountsCons(m, line, none, true);
    CountsCons(m, newline, [line], true);
    var tail := if kept != [] && !Terminated(kept[|kept| - 1]) then [newline, line] else [line];
    var final := kept + tail;
    assert ChunkNames(m, final[|final| - 1]);
    AllEntriesConcat(kept, tail, true);
    CountsConcat(m, AllEntries(kept, true), AllEntries(tail, true));
  }

  lemma NoChunks(m: Mod)
    ensures Hits(m, []) == 0 && Others(m, []) == [] && AllEntries([], true) == [] && AllEntries([], false) == []
  {
  }

  /** What the editor writes back, counted: one entry for the mod beside the hidden ones, the others as they were. */
  lemma {:induction false} FinalCounts(m: Mod, chunks: seq<Bytes>)
    requires ValidMod(m) && ChunkList(chunks)
    ensures var final := FinalChunks(m, chunks);
      && Separated(final) && AnyNames(m, final)
      && Hits(m, AllEntries(final, true)) == Hidden(m, chunks) + 1
      && Others(m, AllEntries(final, true)) == Others(m, AllEntries(chunks, true))
  {
    hide Decode, ChunkNames, Entries, LastNewline, AllEntries, KeepFirst, Hits, Others, Hidden;
    KeepHits(m, chunks, false);
    KeepOthers(m, chunks, false);
    KeepIsChunkList(m, chunks, false);
    NamingIsAny(m, chunks);
    if AnyNames(m, chunks) {
      KeepFirstHead(m, chunks);
    } else {
      LastNewlineIsNewline(chunks, [CR, LF]);
      AppendedCounts(m, KeepFirst(m, chunks, false), LastNewline(chunks, [CR, LF]));
    }
  }

  // ----- the byte order mark -----

  /** A first chunk that decodes holds the whole BOM or no part of it. */
  lemma NoPartialBom(first: Bytes, rest: Bytes)
    requires first != [] && Decode(first).Some?
    ensures BOM <= first + rest <==> BOM <= first
  {
    if first[0] == 0xEF {
      assert |first| >= 3 && (first + rest)[..3] == first[..3];
    } else {
      assert (first + rest)[0] == first[0] && BOM[0] == 0xEF;
    }
  }

  /** The file written back starts with the first line of the payload, or with the mod id. */
  lemma {:induction false} FinalHead(m: Mod, chunks: seq<Bytes>)
    requires ValidMod(m) && ChunkList(chunks) && (chunks != [] ==> chunks[0] != [])
    ensures var final := FinalChunks(m, chunks);
      && final != [] && final[0] != [] && Decode(final[0]).Some?
      && (chunks != [] ==> final[0] == chunks[0])
      && (chunks == [] ==> !(BOM <= final[0]))
  {
    hide Decode, ChunkNames, Strip;
    if chunks == [] {
      AppendedLine(m, [CR, LF]);
      assert IsModChar(m.id[0]) && BOM[0] == 0xEF;
    } else {
      KeepFirstHead(m, chunks);
    }
  }

  lemma {:induction false} BomKept(m: Mod, original: Bytes)
    requires ValidMod(m) && Decode(PayloadOf(original)).Some?
    ensures var payload := Join(FinalChunks(m, Lines(PayloadOf(original), false)));
      var result := BomOf(original) + payload;
      BomOf(result) == BomOf(original) && PayloadOf(result) == payload
  {
    hide Decode, ChunkNames, FinalChunks;
    var payload := PayloadOf(original);
    var chunks := Lines(payload, false);
    var final := FinalChunks(m, chunks);
    var joined := Join(final);
    if BOM <= original {
      assert (BOM + joined)[3..] == joined;
    } else {
      DecodesByLine(payload);
      FinalHead(m, chunks);
      NoPartialBom(final[0], Join(final[1..]));
      if chunks != [] {
        JoinOfLines(payload);
        NoPartialBom(chunks[0], Join(chunks[1..]));
      }
      assert [] + joined == joined;
    }
  }

  // ----- the main results -----

  /** No line that does not name the mod holds, behind an exotic separator, an entry that does. */
  predicate NoHiddenEntry(m: Mod, original: Bytes) {
    var chunks := Lines(PayloadOf(original), false);
    forall i :: 0 <= i < |chunks| && !ChunkNames(m, chunks[i]) ==> Hits(m, Entries(TextOf(chunks[i]), true)) == 0
  }

  lemma {:induction false} HiddenIsZero(m: Mod, chunks: seq<Bytes>)
    ensures Hidden(m, chunks) == 0 <==>
      forall i :: 0 <= i < |chunks| && !ChunkNames(m, chunks[i]) ==> Hits(m, Entries(TextOf(chunks[i]), true)) == 0
  {
    if chunks != [] {
      hide ChunkNames, Entries, TextOf;
      HiddenIsZero(m, chunks[1..]);
      assert forall i :: 0 < i < |chunks| ==> chunks[i] == chunks[1..][i - 1];
    }
  }

  /**
   The editor succeeds exactly on valid UTF-8 with no hidden entry. Its result keeps the BOM, holds
   exactly one entry that names the mod, and holds every other entry of the original, in order.
   */
  lemma {:induction false} EditMeaning(m: Mod, original: Bytes)
    requires ValidMod(m)
    ensures Edit(m, original) == Err(InvalidUtf8) <==> Decode(PayloadOf(original)).None?
    ensures Edit(m, original).Ok? <==> Decode(PayloadOf(original)).Some? && NoHiddenEntry(m, original)
    ensures Edit(m, original).Ok? ==>
      var before, after := Entries(TextOf(PayloadOf(original)), true), Entries(TextOf(PayloadOf(Edit(m, original).value)), true);
      && BomOf(Edit(m, original).value) == BomOf(original)
      && Hits(m, after) == 1
      && Others(m, after) == Others(m, before)
  {
    hide Entries, FinalChunks, Decode, ChunkNames, Hidden, Lines, Hits, Others, AllEntries, Join, BomOf, PayloadOf;
    var payload := PayloadOf(original);
    var chunks := Lines(payload, false);
    DecodesByLine(payload);
    if Decode(payload).Some? {
      JoinOfLines(payload);
      EntriesOfJoin(chunks, true);
      FinalCounts(m, chunks);
      EntriesOfJoin(FinalChunks(m, chunks), true);
      BomKept(m, original);
      HiddenIsZero(m, chunks);
    }
  }

  /** The entries up to and including the first that names the mod, and the others after it. */
  function FirstOnly(m: Mod, es: seq<Text>, found: bool): seq<Text> {
    if es == [] then []
    else if Names(m, es[0]) then (if found then [] else [es[0]]) + FirstOnly(m, es[1..], true)
    else [es[0]] + FirstOnly(m, es[1..], found)
  }

  lemma {:induction false} FirstOnlyConcat(m: Mod, a: seq<Text>, b: seq<Text>, found: bool)
    requires Hits(m, a) == 0
    ensures FirstOnly(m, a + b, found) == a + FirstOnly(m, b, found)
    decreases |a|
  {
    hide Names;
    if a == [] {
      assert a + b == b;
    } else {
      assert (a + b)[1..] == a[1..] + b;
      FirstOnlyConcat(m, a[1..], b, found);
    }
  }

  lemma {:induction false} KeptEntries(m: Mod, chunks: seq<Bytes>, found: bool)
    requires ValidMod(m) && Hidden(m, chunks) == 0
    ensures AllEntries(KeepFirst(m, chunks, found), true) == FirstOnly(m, AllEntries(chunks, true), found)
    decreases |chunks|
  {
    hide Entries, ChunkNames, Strip, Names, Hits;
    if chunks != [] {
      var c, rest := chunks[0], chunks[1..];
      var es := Entries(TextOf(c), true);
      var names := ChunkNames(m, c);
      var later := KeepFirst(m, rest, found || names);
      KeptEntries(m, rest, found || names);
      assert ([c] + later)[1..] == later;
      if names {
        NamingChunkEntries(m, c);
        assert (es + AllEntries(rest, true))[1..] == AllEntries(rest, true);
        assert KeepFirst(m, chunks, found) == if found then later else [c] + later;
      } else {
        FirstOnlyConcat(m, es, AllEntries(rest, true), found);
      }
    }
  }

  /**
   The edited load order, entry by entry: later duplicates of the mod are dropped and the first keeps its
   place, or the mod comes last where nothing named it.
   */
  lemma {:induction false} EditedEntries(m: Mod, original: Bytes)
    requires ValidMod(m) && Edit(m, original).Ok?
    ensures var before, after := Entries(TextOf(PayloadOf(original)), true), Entries(TextOf(PayloadOf(Edit(m, original).value)), true);
      after == if Hits(m, before) == 0 then before + [m.id] else FirstOnly(m, before, false)
  {
    hide Entries, Decode, ChunkNames, Lines, Hits, AllEntries, Join, BomOf, PayloadOf, LastNewline, Strip, KeepFirst;
    var chunks := Lines(PayloadOf(original), false);
    var final := FinalChunks(m, chunks);
    DecodesByLine(PayloadOf(original));
    EditMeaning(m, original);
    JoinOfLines(PayloadOf(original));
    EntriesOfJoin(chunks, true);
    FinalCounts(m, chunks);
    EntriesOfJoin(final, true);
    BomKept(m, original);
    HiddenIsZero(m, chunks);
    CountChunks(m, chunks);
    NamingIsAny(m, chunks);
    KeptEntries(m, chunks, false);
    if !AnyNames(m, chunks) {
      LastNewlineIsNewline(chunks, [CR, LF]);
      AppendedEntries(m, KeepFirst(m, chunks, false), LastNewline(chunks, [CR, LF]));
      FirstOnlyNone(m, AllEntries(chunks, true));
    }
  }

  lemma {:induction false} FirstOnlyNone(m: Mod, es: seq<Text>)
    requires Hits(m, es) == 0
    ensures FirstOnly(m, es, false) == es
  {
    FirstOnlyConcat(m, es, [], false);
    assert es + [] == es;
  }

  lemma {:induction false} AppendedEntries(m: Mod, kept: seq<Bytes>, newline: Bytes)
    requires ValidMod(m) && IsNewline(newline)
    ensures AllEntries(kept + [m.id + newline], true) == AllEntries(kept, true) + [m.id]
    ensures AllEntries(kept + [newline, m.id + newline], true) == AllEntries(kept, true) + [m.id]
  {
    hide ChunkNames, Entries, Strip;
    AppendedLine(m, newline);
    var line := m.id + newline;
    assert ChunkNames(m, line);
    assert Strip(TextOf(line)) == m.id by {
      assert forall i :: 0 <= i < |m.id| ==> IsModChar(m.id[i]);
      AsciiDecodes(line);
      StripModId(m, newline);
    }
    NamingChunkEntries(m, line);
    var none: seq<Bytes> := [];
    assert [newline, line][1..] == [line] && [line][1..] == none;
    assert AllEntries([line], true) == Entries(TextOf(line), true);
    assert AllEntries([newline, line], true) == Entries(TextOf(line), true);
    AllEntriesConcat(kept, [line], true);
    AllEntriesConcat(kept, [newline, line], true);
  }

  lemma NamingChunkEntries(m: Mod, c: Bytes)
    requires ValidMod(m) && ChunkNames(m, c)
    ensures Entries(TextOf(c), true) == [Strip(TextOf(c))] && Names(m, Strip(TextOf(c)))
  {
    NamingTextIsOneEntry(m, TextOf(c), true);
  }

  /** Where no separator is exotic, the two splitters agree and the final verifier never refuses. */
  lemma {:induction false} VerifierNeverTrips(m: Mod, original: Bytes)
    requires ValidMod(m) && Decode(PayloadOf(original)).Some?
    requires forall i :: 0 <= i < |TextOf(PayloadOf(original))| ==> !IsExotic(TextOf(PayloadOf(original))[i])
    ensures Edit(m, original).Ok?
  {
    var payload := PayloadOf(original);
    var chunks := Lines(payload, false);
    DecodesByLine(payload);
    EditMeaning(m, original);
    forall i | 0 <= i < |chunks| && !ChunkNames(m, chunks[i]) ensures Hits(m, Entries(TextOf(chunks[i]), true)) == 0 {
      PlainChunk(payload, i);
      SplittersAgree(TextOf(chunks[i]));
      OtherLine(m, chunks[i]);
    }
  }

  lemma {:induction false} PlainChunk(s: Bytes, i: nat)
    requires Decode(s).Some? && i < |Lines(s, false)|
    requires forall k :: 0 <= k < |TextOf(s)| ==> !IsExotic(TextOf(s)[k])
    ensures forall k :: 0 <= k < |TextOf(Lines(s, false)[i])| ==> !IsExotic(TextOf(Lines(s, false)[i])[k])
    decreases |s|
  {
    FirstLineDecodes(s);
    if i > 0 { PlainChunk(s[LineEnd(s, false)..], i - 1); }
  }

  lemma {:induction false} SplittersAgree(t: Text)
    requires forall k :: 0 <= k < |t| ==> !IsExotic(t[k])
    ensures Entries(t, true) == Entries(t, false)
    decreases |t|
  {
    if t != [] {
      SameLineEnd(t);
      SplittersAgree(t[LineEnd(t, true)..]);
    }
  }

  lemma {:induction false} SameLineEnd(t: Text)
    requires t != [] && forall k :: 0 <= k < |t| ==> !IsExotic(t[k])
    ensures LineEnd(t, true) == LineEnd(t, false)
    decreases |t|
  {
    if |t| > 1 && !IsBreak(t[0], false) { SameLineEnd(t[1..]); }
  }

  lemma {:induction false} KeepsAll(m: Mod, chunks: seq<Bytes>, found: bool)
    requires Naming(m, chunks) + (if found then 1 else 0) <= 1
    ensures KeepFirst(m, chunks, found) == chunks
    decreases |chunks|
  {
    if chunks != [] {
      hide ChunkNames;
      KeepsAll(m, chunks[1..], found || ChunkNames(m, chunks[0]));
    }
  }

  /** A file in which exactly one line names the mod comes back byte for byte. */
  lemma {:induction false} UnchangedWhenOne(m: Mod, original: Bytes)
    requires ValidMod(m) && Decode(PayloadOf(original)).Some? && NoHiddenEntry(m, original)
    requires Naming(m, Lines(PayloadOf(original), false)) == 1
    ensures Edit(m, original) == Ok(original)
  {
    hide ChunkNames, Decode, KeepFirst;
    var chunks := Lines(PayloadOf(original), false);
    EditMeaning(m, original);
    KeepsAll(m, chunks, false);
    NamingIsAny(m, chunks);
    JoinOfLines(PayloadOf(original));
    assert FinalChunks(m, chunks) == chunks;
    assert BomOf(original) + PayloadOf(original) == original;
  }

  /** Editing twice is editing once, for every input the editor accepts. */
  lemma {:induction false} EditIdempotent(m: Mod, original: Bytes)
    requires ValidMod(m) && Edit(m, original).Ok?
    ensures Edit(m, Edit(m, original).value) == Edit(m, original)
  {
    hide ChunkNames, Decode, Entries, KeepFirst, Verify, Strip;
    EditMeaning(m, original);
    BomKept(m, original);
    var chunks := Lines(PayloadOf(original), false);
    DecodesByLine(PayloadOf(original));
    FinalCounts(m, chunks);
    var final := FinalChunks(m, chunks);
    EntriesOfJoin(final, false);
    EntriesOfJoin(final, true);
    var result := Edit(m, original).value;
    var payload := PayloadOf(result);
    assert payload == Join(final);
    var again := Lines(payload, false);
    DecodesByLine(payload);
    JoinOfLines(payload);
    EntriesOfJoin(again, false);
    EntriesOfJoin(again, true);
    CountChunks(m, again);
    CountLines(m, again);
    HitsOfNaming(m, final, false);
    HiddenIsZero(m, again);
    UnchangedWhenOne(m, result);
  }

  /** The verifier does refuse the editor's own result where an exotic separator hides the mod: here `a`, VT, `m`. */
  lemma {:induction false} HiddenEntryTripsVerifier(fold: int -> seq<int>)
    requires ValidMod(Mod([109], fold))
    ensures Edit(Mod([109], fold), [97, 0x0B, 109]) == Err(NotExactlyOneEntry)
  {
    hide Decode, Entries, Strip, Edit;
    var m := Mod([109], fold);
    var file: Bytes := [97, 0x0B, 109];
    AsciiDecodes(file);
    EditMeaning(m, file);
    assert BOM[0] != file[0];
    assert file[0..] == file && PayloadOf(file) == file;
    assert file[1..] == [0x0B, 109] && file[1..][1..] == [109] && file[3..] == [] && file[..3] == file;
    assert Lines(file, false) == [file];
    HiddenFileEntries();
    HiddenFileNames(m);
    hide Names, Hits, CaseFold, Lines;
    assert Lines(PayloadOf(file), false)[0] == file && TextOf(file) == file;
    assert !ChunkNames(m, file);
    EditErrors(m, file);
  }

  lemma EditErrors(m: Mod, original: Bytes)
    ensures Edit(m, original).Ok? || Edit(m, original) == Err(InvalidUtf8) || Edit(m, original) == Err(NotExactlyOneEntry)
  {
  }

  lemma {:induction false} HiddenFileNames(m: Mod)
    requires ValidMod(m) && m.id == [109]
    ensures Hits(m, [[97], [109]]) == 1 && !Names(m, [97, 0x0B, 109])
  {
    FoldFixes(m, m.id);
    FoldKeepsSpace(m, [97, 0x0B, 109], 1);
    FoldFixes(m, [97]);
    var none: seq<Text> := [];
    assert [[97]] + [[109]] == [[97], [109]] && [[97]][1..] == none && [[109]][1..] == none;
    CountsConcat(m, [[97]], [[109]]);
  }

  lemma {:induction false} HiddenFileEntries()
    ensures Entries([97, 0x0B, 109], true) == [[97], [109]]
    ensures Strip([97, 0x0B, 109]) == [97, 0x0B, 109]
  {
    var file: Text := [97, 0x0B, 109];
    var i, j := StripBounds(file);
    assert !IsSpace(file[0]) && !IsSpace(file[2]);
    var a: Text, b: Text := [97, 0x0B], [109];
    assert file[1..] == [0x0B, 109] && file[..2] == a && file[2..] == b && b[..1] == b && b[1..] == [];
    i, j := StripBounds(a);
    assert !IsSpace(a[0]) && IsSpace(a[1]);
    assert Strip(a) == [97];
    i, j := StripBounds(b);
    assert !IsSpace(b[0]);
    assert Strip(b) == b;
    hide Strip;
    assert LineEnd(file, true) == 2 && LineEnd(b, true) == 1;
    assert Entries([], true) == [];
    assert Entries(b, true) == [b];
    assert Entries(file, true) == Entry(a) + Entries(b, true);
  }

  lemma {:induction false} HitsOfNaming(m: Mod, chunks: seq<Bytes>, wide: bool)
    requires ValidMod(m) && AnyNames(m, chunks)
    ensures Hits(m, AllEntries(chunks, wide)) >= 1
  {
    hide Entries, Strip;
    CountsConcat(m, Entries(TextOf(chunks[0]), wide), AllEntries(chunks[1..], wide));
    if ChunkNames(m, chunks[0]) {
      NamingChunk(m, chunks[0], wide);
    } else {
      var i :| 0 <= i < |chunks| && ChunkNames(m, chunks[i]);
      assert chunks[1..][i - 1] == chunks[i];
      HitsOfNaming(m, chunks[1..], wide);
    }
  }
}
