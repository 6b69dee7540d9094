/**
 Responses that contain their own byte length. The length is measured by iterating: serialize with the last
 length, measure, repeat, at most 8 times. Passing the response limit adds text to the receipt as well.
 */
module MeasuredReceipt {
  import opened Wrappers
  import opened ScopeReceipt

  const MAX_ROUNDS := 8

  // ----- the serialized length of a receipt -----

  /** Lengths of the JSON strings, quotes included. */
  function StatusLength(s: Status): nat {
    match s case InScope => 17 case Breach => 21 case LimitReached => 28 case Inconclusive => 14
  }

  /** What `count` strings of `total` characters take in a JSON array, commas included. */
  function Listed(count: nat, total: nat): nat { if count == 0 then 0 else total + count - 1 }

  function LimitsLength(limits: set<Limit>): nat {
    var a, f := if ArchiveEntries in limits then 1 else 0, if Files in limits then 1 else 0;
    var p, r := if PhysicalBytes in limits then 1 else 0, if ResponseBytes in limits then 1 else 0;
    Listed(a + f + p + r, 17 * a + 7 * f + 16 * p + 16 * r)
  }

  function DiagnosticsLength(ds: set<Diagnostic>): nat {
    var r, o := if RootsOutside in ds then 1 else 0, if OtherProvider in ds then 1 else 0;
    var p, l := if PathsReported in ds then 1 else 0, if LimitsReached in ds then 1 else 0;
    var s := if ScanIncomplete in ds then 1 else 0;
    Listed(r + o + p + l + s, 53 * r + 48 * o + 46 * p + 42 * l + 33 * s)
  }

  /** The response's length: `rest` is everything the measured length does not influence. */
  function SerializedLength(rest: nat, r: Receipt): nat {
    rest + Digits(r.access.responseBytes) + StatusLength(r.status)
    + LimitsLength(r.access.limitsReached) + DiagnosticsLength(r.diagnostics)
  }

  function Measured(g: Guard, a: Access, n: nat): Receipt { Emit(g, a.(responseBytes := n)) }

  function LengthAt(rest: nat, g: Guard, a: Access, n: nat): nat { SerializedLength(rest, Measured(g, a, n)) }

  // ----- the shape of the length -----

  /** The abstract measure: a base, the digits of the length, and what passing the limit adds. */
  function Measure(base: nat, extra: nat, maximum: nat, n: nat): nat {
    base + Digits(n) + if n > maximum then extra else 0
  }

  const MAX_EXTRA := 90

  /** The text a receipt carries besides the digits. */
  function TextLength(r: Receipt): nat {
    StatusLength(r.status) + LimitsLength(r.access.limitsReached) + DiagnosticsLength(r.diagnostics)
  }

  lemma LimitsGrow(limits: set<Limit>)
    ensures LimitsLength(limits) <= LimitsLength(limits + {ResponseBytes}) <= LimitsLength(limits) + 17
  {
  }

  lemma DiagnosticsGrow(leaked: bool, other: bool, reported: bool, limits: bool, incomplete: bool)
    ensures DiagnosticsLength(DiagnosticsOf(leaked, other, reported, limits, incomplete))
      <= DiagnosticsLength(DiagnosticsOf(leaked, other, reported, true, incomplete))
      <= DiagnosticsLength(DiagnosticsOf(leaked, other, reported, limits, incomplete)) + 43
  {
    if !limits {
      assert DiagnosticsOf(leaked, other, reported, true, incomplete)
        == DiagnosticsOf(leaked, other, reported, false, incomplete) + {LimitsReached};
    }
  }

  lemma StatusGrows(outOfScope: set<Path>, other: nat, limits: set<Limit>, complete: bool)
    ensures var low, high := StatusOf(outOfScope, other, limits, complete), StatusOf(outOfScope, other, limits + {ResponseBytes}, complete);
      StatusLength(low) <= StatusLength(high) <= StatusLength(low) + 14
  {
    assert ResponseBytes in limits + {ResponseBytes};
  }

  /** The limits a receipt reports depend on the reported length through one comparison only. */
  lemma LimitsByLimit(g: Guard, a: Access, n: nat, m: nat)
    requires n <= g.limits.responseBytes
    ensures Leaked(g, a.(responseBytes := n)) == Leaked(g, a.(responseBytes := m))
    ensures Exceeded(g, a.(responseBytes := m)) ==
      Exceeded(g, a.(responseBytes := n)) + if m > g.limits.responseBytes then {ResponseBytes} else {}
  {
  }

  /** The reported length changes a receipt's text only by passing the limit, and then by a bounded amount. */
  lemma TextByLimit(g: Guard, a: Access, n: nat, m: nat)
    requires n <= g.limits.responseBytes
    ensures m <= g.limits.responseBytes ==> TextLength(Measured(g, a, m)) == TextLength(Measured(g, a, n))
    ensures TextLength(Measured(g, a, n)) <= TextLength(Measured(g, a, m)) <= TextLength(Measured(g, a, n)) + MAX_EXTRA
  {
    hide StatusLength, LimitsLength, DiagnosticsLength, StatusOf, DiagnosticsOf, Leaked, Exceeded;
    LimitsByLimit(g, a, n, m);
    var low := Measured(g, a, n);
    var limits := low.access.limitsReached;
    if m <= g.limits.responseBytes {
      assert a.limitsReached + Exceeded(g, a.(responseBytes := m)) == limits;
    } else {
      assert a.limitsReached + Exceeded(g, a.(responseBytes := m)) == limits + {ResponseBytes};
      assert limits + {ResponseBytes} != {} by { assert ResponseBytes in limits + {ResponseBytes}; }
      LimitsGrow(limits);
      StatusGrows(low.access.outOfScope, a.otherProviderRecords, limits, a.scanComplete);
      DiagnosticsGrow(Leaked(g, a.(responseBytes := n)) != {}, a.otherProviderRecords > 0, low.access.outOfScope != {},
                      limits != {}, !a.scanComplete);
    }
  }

  lemma TextOverLimit(g: Guard, a: Access, n: nat, m: nat)
    requires n > g.limits.responseBytes && m > g.limits.responseBytes
    ensures TextLength(Measured(g, a, n)) == TextLength(Measured(g, a, m))
  {
    hide StatusLength, LimitsLength, DiagnosticsLength, StatusOf, DiagnosticsOf, Leaked, Exceeded;
    LimitsByLimit(g, a, 0, n);
    LimitsByLimit(g, a, 0, m);
  }

  /** The length of the response at a given reported length has the abstract shape, whatever the access. */
  lemma {:induction false} LengthShape(rest: nat, g: Guard, a: Access) returns (base: nat, extra: nat)
    ensures extra <= MAX_EXTRA
    ensures forall n: nat :: LengthAt(rest, g, a, n) == Measure(base, extra, g.limits.responseBytes, n)
  {
    hide TextLength, Measured, LengthAt, Digits;
    var maximum := g.limits.responseBytes;
    base := rest + TextLength(Measured(g, a, 0));
    TextByLimit(g, a, 0, maximum + 1);
    extra := TextLength(Measured(g, a, maximum + 1)) - TextLength(Measured(g, a, 0));
    forall n: nat ensures LengthAt(rest, g, a, n) == Measure(base, extra, maximum, n) {
      LengthIsText(rest, g, a, n);
      if n <= maximum { TextByLimit(g, a, 0, n); } else { TextOverLimit(g, a, n, maximum + 1); }
    }
  }

  lemma LengthIsText(rest: nat, g: Guard, a: Access, n: nat)
    ensures LengthAt(rest, g, a, n) == rest + Digits(n) + TextLength(Measured(g, a, n))
  {
  }

  // ----- convergence -----

  lemma {:induction false} DigitsMonotone(n: nat, m: nat)
    requires n <= m
    ensures Digits(n) <= Digits(m)
    decreases m
  {
    if n >= 10 { DigitsMonotone(n / 10, m / 10); }
  }

  lemma {:induction false} DigitsSmall(n: nat)
    ensures Digits(n) <= n + 1
  {
    if n >= 10 { DigitsSmall(n / 10); }
  }

  /** A hundredfold adds two digits. */
  lemma DigitsOfHundredfold(n: nat, m: nat)
    requires n < 100 * m
    ensures Digits(n) <= Digits(m) + 2
  {
    if n >= 100 {
      assert Digits(n) == 2 + Digits(n / 10 / 10);
      assert n / 10 / 10 == n / 100 <= m;
      DigitsMonotone(n / 10 / 10, m);
    } else {
      assert n / 10 < 10;
    }
  }

  lemma MeasureMonotone(base: nat, extra: nat, maximum: nat, n: nat, m: nat)
    requires n <= m
    ensures Measure(base, extra, maximum, n) <= Measure(base, extra, maximum, m)
  {
    DigitsMonotone(n, m);
  }

  /** How far a length has climbed: digits beyond the first measurement, and whether it passed the limit. */
  function Climb(base: nat, maximum: nat, n: nat): int {
    Digits(n) - Digits(base + 1) + if n > maximum then 1 else 0
  }

  /** A length measured from a small enough one is small enough again, and has climbed at most three steps. */
  lemma ClimbBounded(base: nat, extra: nat, maximum: nat, n: nat)
    requires extra <= MAX_EXTRA && n < 100 * (base + 1)
    ensures base + 1 <= Measure(base, extra, maximum, n) < 100 * (base + 1)
    ensures n >= base + 1 ==> 0 <= Climb(base, maximum, n) <= 3
  {
    DigitsOfHundredfold(n, base + 1);
    DigitsSmall(base);
    DigitsMonotone(base, base + 1);
    if base >= 9 { DigitsSmall(base + 1); }
    if n >= base + 1 { DigitsMonotone(base + 1, n); }
  }

  /** A strictly longer measurement climbs at least one step. */
  lemma ClimbGrows(base: nat, extra: nat, maximum: nat, n: nat, m: nat)
    requires n <= m && Measure(base, extra, maximum, n) < Measure(base, extra, maximum, m)
    ensures Climb(base, maximum, n) < Climb(base, maximum, m)
  {
    DigitsMonotone(n, m);
  }

  ghost predicate IsLeastFixpoint(base: nat, extra: nat, maximum: nat, n: nat) {
    n == Measure(base, extra, maximum, n) && forall m: nat :: m == Measure(base, extra, maximum, m) ==> n <= m
  }

  /** One round of the loop, once the first two lengths are known. */
  lemma RoundClimbs(base: nat, extra: nat, maximum: nat, previous: nat, n: nat, rounds: nat)
    requires extra <= MAX_EXTRA && previous < n < 100 * (base + 1) && n == Measure(base, extra, maximum, previous)
    requires rounds >= 1 && (rounds > 1 ==> base + 1 <= previous && Climb(base, maximum, previous) >= rounds - 2)
    ensures n <= Measure(base, extra, maximum, n) < 100 * (base + 1) && base + 1 <= n
    ensures n != Measure(base, extra, maximum, n) ==> rounds <= 4 && Climb(base, maximum, n) >= rounds - 1
  {
    ClimbBounded(base, extra, maximum, previous);
    ClimbBounded(base, extra, maximum, n);
    MeasureMonotone(base, extra, maximum, previous, n);
    if n < Measure(base, extra, maximum, n) && rounds > 1 { ClimbGrows(base, extra, maximum, previous, n); }
  }

  /**
   The measuring loop. It reaches the least fixpoint within six rounds, for every base and limit, so the reported
   length is the real one and the fallback after eight rounds is never taken.
   */
  method MeasureLoop(length: nat -> nat, ghost base: nat, ghost extra: nat, ghost maximum: nat)
    returns (n: nat, converged: bool)
    requires extra <= MAX_EXTRA && forall m :: length(m) == Measure(base, extra, maximum, m)
    ensures converged && IsLeastFixpoint(base, extra, maximum, n)
  {
    hide Measure, Climb;
    n, converged := 0, false;
    var rounds := 0;
    ghost var previous: nat := 0;
    while rounds < MAX_ROUNDS && !converged
      invariant rounds <= if converged then 6 else 5
      invariant converged ==> n == Measure(base, extra, maximum, n)
      invariant rounds == 0 ==> n == 0 && !converged
      invariant rounds > 0 && !converged ==> previous < n < 100 * (base + 1) && n == Measure(base, extra, maximum, previous)
      invariant rounds > 1 && !converged ==> base + 1 <= previous && Climb(base, maximum, previous) >= rounds - 2
      invariant forall m: nat :: m == Measure(base, extra, maximum, m) ==> n <= m
    {
      var updated := length(n);
      if rounds == 0 { ClimbBounded(base, extra, maximum, 0); } else { RoundClimbs(base, extra, maximum, previous, n, rounds); }
      forall m: nat | m == Measure(base, extra, maximum, m) ensures updated <= m {
        MeasureMonotone(base, extra, maximum, n, m);
      }
      if updated == n { converged := true; }
      previous, n, rounds := n, updated, rounds + 1;
    }
  }

  /** A response whose own length fits the limit is never measured as passing it. */
  lemma FittingIsUnflagged(base: nat, extra: nat, maximum: nat, n: nat, m: nat)
    requires IsLeastFixpoint(base, extra, maximum, n) && m <= maximum && m == base + Digits(m)
    ensures n <= maximum && n == base + Digits(n)
  {
    assert m == Measure(base, extra, maximum, m);
  }

  /** `_emit_measured_receipt`: the receipt reports the real length of the response that contains it. */
  method EmitMeasured(rest: nat, g: Guard, a: Access) returns (n: nat, receipt: Receipt)
    ensures receipt == Measured(g, a, n) && n == SerializedLength(rest, receipt)
    ensures forall m: nat :: m == LengthAt(rest, g, a, m) ==> n <= m
    ensures ResponseBytes in receipt.access.limitsReached <==> n > g.limits.responseBytes || ResponseBytes in a.limitsReached
  {
    ghost var base, extra := LengthShape(rest, g, a);
    var converged;
    n, converged := MeasureLoop(m => LengthAt(rest, g, a, m), base, extra, g.limits.responseBytes);
    receipt := Measured(g, a, n);
  }

  // ----- truncation -----

  /** The parts of a response that may be cut, and whether each was. The elements stand for their records. */
  datatype Payload = Payload(
    paks: seq<string>, paksCut: bool, overridePaths: seq<string>, overridePathsCut: bool,
    factPaks: seq<string>, factPaksCut: bool, nativeComponents: seq<string>, nativeComponentsCut: bool)

  predicate CanCut(p: Payload) {
    p.paks != [] || p.overridePaths != [] || p.factPaks != [] || p.nativeComponents != []
  }

  /** One truncation: the last record of the first list that still has one. */
  function Cut(p: Payload): Payload
    requires CanCut(p)
  {
    if p.paks != [] then p.(paks := p.paks[..|p.paks| - 1], paksCut := true)
    else if p.overridePaths != [] then
      p.(overridePaths := p.overridePaths[..|p.overridePaths| - 1], overridePathsCut := true)
    else if p.factPaks != [] then p.(factPaks := p.factPaks[..|p.factPaks| - 1], factPaksCut := true)
    else p.(nativeComponents := p.nativeComponents[..|p.nativeComponents| - 1], nativeComponentsCut := true)
  }

  function Records(p: Payload): nat { |p.paks| + |p.overridePaths| + |p.factPaks| + |p.nativeComponents| }

  /** A response fits when the length it reports is within the limit. */
  ghost predicate Fits(rest: nat, g: Guard, a: Access) {
    exists n: nat :: n <= g.limits.responseBytes && n == LengthAt(rest, g, a, n)
  }

  /** The first truncation of `p` that fits, counting no truncation as one. */
  ghost predicate FirstFit(p: Payload, q: Payload, size: Payload -> nat, g: Guard, a: Access)
    decreases Records(p)
  {
    if Fits(size(p), g, a) then q == p
    else CanCut(p) && FirstFit(Cut(p), q, size, g, a)
  }

  ghost predicate NothingFits(p: Payload, size: Payload -> nat, g: Guard, a: Access)
    decreases Records(p)
  {
    !Fits(size(p), g, a) && (CanCut(p) ==> NothingFits(Cut(p), size, g, a))
  }

  /**
   `_fit_response`. `size` is the length of everything outside the measured receipt. The loop ends, returns the
   first truncation that fits with its true length, and fails only if even the empty response does not fit.
   */
  method FitResponse(payload: Payload, size: Payload -> nat, g: Guard, a: Access)
    returns (r: Option<(Payload, Receipt)>)
    ensures r.None? <==> NothingFits(payload, size, g, a)
    ensures r.Some? ==> (
      var (cut, receipt) := r.value;
      && FirstFit(payload, cut, size, g, a)
      && SerializedLength(size(cut), receipt) == receipt.access.responseBytes <= g.limits.responseBytes
      && (ResponseBytes in receipt.access.limitsReached <==> ResponseBytes in a.limitsReached))
  {
    hide LengthAt, SerializedLength;
    var current := payload;
    while true
      invariant forall q :: FirstFit(current, q, size, g, a) ==> FirstFit(payload, q, size, g, a)
      invariant NothingFits(current, size, g, a) <==> NothingFits(payload, size, g, a)
      decreases Records(current)
    {
      var n, receipt := EmitMeasured(size(current), g, a);
      assert n == LengthAt(size(current), g, a, n) by { LengthIsSerialized(size(current), g, a, n); }
      if n <= g.limits.responseBytes {
        return Some((current, receipt));
      }
      if !CanCut(current) { return None; }
      current := Cut(current);
    }
  }

  lemma LengthIsSerialized(rest: nat, g: Guard, a: Access, n: nat)
    ensures LengthAt(rest, g, a, n) == SerializedLength(rest, Measured(g, a, n))
  {
  }
}
