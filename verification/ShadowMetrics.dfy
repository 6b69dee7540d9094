/**
 The shadow metrics that the table comparison emits, and the validator that recomputes them from the counts
 alone when conflicts are classified.
 */
module ShadowMetrics {
  import opened Wrappers

  /** The bound on the records of all providers of one comparison together. */
  const MAX_RECORDS := 20_000
  const MICROS := 1_000_000.0

  datatype Risk = ReviewRequired | NoneObserved
  datatype Dependency = Dependency(sourceBuild: string, sha256: string)
  datatype Metrics = Metrics(
    baselineTotal: nat, candidateTotal: nat, changed: nat, duplicated: nat, ratio: real, fullShadow: bool,
    builds: set<string>, hashes: set<string>, risk: Risk)

  // ----- rounding to six places -----

  /** The multiple of a millionth nearest to `x`; ties go to the even one. */
  function Round6(x: real): real {
    var y := x * MICROS;
    var whole := y.Floor;
    var part := y - whole as real;
    (if part < 0.5 || (part == 0.5 && whole % 2 == 0) then whole as real else (whole + 1) as real) / MICROS
  }

  lemma RoundIsNear(x: real)
    ensures x - 0.000_000_5 <= Round6(x) <= x + 0.000_000_5
  {
  }

  lemma RoundTwice(x: real)
    ensures Round6(Round6(x)) == Round6(x)
  {
    var y := x * MICROS;
    var n := if y - y.Floor as real < 0.5 || (y - y.Floor as real == 0.5 && y.Floor % 2 == 0) then y.Floor else y.Floor + 1;
    assert Round6(x) == n as real / MICROS;
    assert (n as real / MICROS) * MICROS == n as real;
    assert (n as real).Floor == n;
  }

  function Ratio(part: nat, total: nat): real { if total == 0 then 0.0 else part as real / total as real }

  lemma InverseIsLarge(t: real)
    requires 0.0 < t <= 20_000.0
    ensures 1.0 / t >= 0.000_05
  {
    FactorIsLarge(1.0 / t, t);
  }

  lemma FactorIsLarge(x: real, t: real)
    requires 0.0 < t <= 20_000.0 && x * t == 1.0
    ensures x >= 0.000_05
  {
    assert x < 0.000_05 ==> x * t < 0.000_05 * t;
  }

  /** Six places tell apart any two shares of at most twenty thousand records. */
  lemma RoundSeparates(a: nat, b: nat, total: nat)
    requires a < b && 0 < total <= MAX_RECORDS
    ensures Round6(Ratio(a, total)) < Round6(Ratio(b, total))
  {
    var t := total as real;
    assert b as real / t - a as real / t == (b - a) as real / t;
    assert (b - a) as real / t >= 1.0 / t;
    InverseIsLarge(t);
    RoundIsNear(Ratio(a, total));
    RoundIsNear(Ratio(b, total));
  }

  lemma RatioIsShare(part: nat, total: nat)
    requires part <= total
    ensures 0.0 <= Ratio(part, total) <= 1.0
  {
    if total > 0 { assert 0.0 <= part as real / total as real <= total as real / total as real; }
  }

  lemma RoundedShare(x: real)
    requires 0.0 <= x <= 1.0
    ensures 0.0 <= Round6(x) <= 1.0
  {
    var y := x * MICROS;
    assert 0.0 <= y <= MICROS && 0 <= y.Floor <= 1_000_000;
  }

  // ----- the comparison -----

  function Duplicated<K, V(==)>(baseline: map<K, V>, candidate: map<K, V>): set<K> {
    set k | k in candidate && k in baseline && baseline[k] == candidate[k]
  }

  /** The keys whose records differ. A candidate that replaces the whole file also removes what it leaves out. */
  function Changed<K, V(==)>(baseline: map<K, V>, candidate: map<K, V>, whole: bool): set<K> {
    candidate.Keys - Duplicated(baseline, candidate) + if whole then baseline.Keys - candidate.Keys else {}
  }

  function Overlap<K, V>(baseline: map<K, V>, candidate: map<K, V>): nat { |baseline.Keys * candidate.Keys| }

  function MetricsOf<K, V(==)>(baseline: map<K, V>, candidate: map<K, V>, whole: bool, dependencies: seq<Dependency>): Metrics {
    var overlap := Overlap(baseline, candidate);
    var full := |baseline| > 0 && overlap == |baseline|;
    Metrics(|baseline|, |candidate|, |Changed(baseline, candidate, whole)|, |Duplicated(baseline, candidate)|,
            Round6(Ratio(overlap, |baseline|)), full,
            set i | 0 <= i < |dependencies| :: dependencies[i].sourceBuild,
            set i | 0 <= i < |dependencies| :: dependencies[i].sha256,
            if full && dependencies != [] then ReviewRequired else NoneObserved)
  }

  lemma ChangedIs<K, V>(baseline: map<K, V>, candidate: map<K, V>, whole: bool)
    ensures Changed(baseline, candidate, whole) ==
      candidate.Keys - Duplicated(baseline, candidate) + if whole then baseline.Keys - candidate.Keys else {}
    ensures forall k :: k in Duplicated(baseline, candidate) <==> k in candidate && k in baseline && baseline[k] == candidate[k]
  {
  }

  lemma Settled<K>(keys: set<K>, all: set<K>, changed: set<K>, same: set<K>)
    requires all <= keys
    requires forall k :: k in changed <==> k in keys && k !in all
    requires forall k :: k in same <==> k in all
    ensures changed == keys - all && same == all
  {
  }

  /** The counting loop of `compare_table_semantics`. The order in which it takes the keys does not matter. */
  method CountChanges<K, V(==)>(baseline: map<K, V>, candidate: map<K, V>, whole: bool)
    returns (changed: set<K>, duplicated: nat)
    ensures changed == Changed(baseline, candidate, whole) && duplicated == |Duplicated(baseline, candidate)|
  {
    changed, duplicated := {}, 0;
    var todo := candidate.Keys;
    ghost var keys, all := candidate.Keys, Duplicated(baseline, candidate);
    ghost var same: set<K> := {};
    ChangedIs(baseline, candidate, whole);
    hide *;
    while todo != {}
      invariant todo <= keys && duplicated == |same|
      invariant forall k :: k in same <==> k in all && k !in todo
      invariant forall k :: k in changed <==> k in keys && k !in all && k !in todo
      decreases |todo|
    {
      var key :| key in todo;
      todo := todo - {key};
      if key in baseline && baseline[key] == candidate[key] {
        duplicated := duplicated + 1;
        same := same + {key};
      } else {
        changed := changed + {key};
      }
    }
    Settled(keys, all, changed, same);
    changed := changed + if whole then baseline.Keys - candidate.Keys else {};
  }

  // ----- the validator -----

  datatype Rejection = TooManyRecords | RatioOutOfRange | InconsistentRatio | InconsistentFullShadow | InconsistentRisk

  /** `_shadow_metrics`. It sees the counts, not the records. */
  function Validate(m: Metrics): Result<(), Rejection> {
    var overlap := m.changed + m.duplicated;
    if overlap > m.baselineTotal then Err(TooManyRecords)
    else if m.ratio < 0.0 || m.ratio > 1.0 then Err(RatioOutOfRange)
    else if Round6(m.ratio) != Round6(Ratio(overlap, m.baselineTotal)) then Err(InconsistentRatio)
    else if m.fullShadow != (m.baselineTotal > 0 && overlap == m.baselineTotal) then Err(InconsistentFullShadow)
    else if m.risk != (if m.fullShadow && m.builds != {} then ReviewRequired else NoneObserved) then Err(InconsistentRisk)
    else Ok(())
  }

  lemma DisjointSizes<K>(a: set<K>, b: set<K>)
    requires a !! b
    ensures |a + b| == |a| + |b|
  {
  }

  /** Changed and duplicated keys are disjoint, and together they are the candidate's keys, or all keys. */
  lemma CountsPartition<K, V>(baseline: map<K, V>, candidate: map<K, V>, whole: bool)
    ensures |Changed(baseline, candidate, whole)| + |Duplicated(baseline, candidate)|
      == |if whole then baseline.Keys + candidate.Keys else candidate.Keys|
  {
    SplitByDuplicates(baseline.Keys, candidate.Keys, Duplicated(baseline, candidate), whole);
  }

  lemma SplitByDuplicates<K>(b: set<K>, c: set<K>, d: set<K>, whole: bool)
    requires d <= b && d <= c
    ensures |c - d + if whole then b - c else {}| + |d| == |if whole then b + c else c|
  {
    var changed := c - d + if whole then b - c else {};
    DisjointSizes(changed, d);
    assert changed + d == if whole then b + c else c;
  }

  /** What the validator compares, in terms of the number of records it counts. */
  lemma AcceptedIffCountsAgree<K, V>(baseline: map<K, V>, candidate: map<K, V>, whole: bool, dependencies: seq<Dependency>)
    requires |baseline| <= MAX_RECORDS
    ensures Validate(MetricsOf(baseline, candidate, whole, dependencies)).Ok? <==>
      |if whole then baseline.Keys + candidate.Keys else candidate.Keys| == Overlap(baseline, candidate)
  {
    var m := MetricsOf(baseline, candidate, whole, dependencies);
    var overlap, counted := Overlap(baseline, candidate), m.changed + m.duplicated;
    CountsPartition(baseline, candidate, whole);
    SubsetSize(baseline.Keys * candidate.Keys, baseline.Keys);
    SubsetSize(baseline.Keys * candidate.Keys, if whole then baseline.Keys + candidate.Keys else candidate.Keys);
    RatioIsShare(overlap, |baseline|);
    RoundedShare(Ratio(overlap, |baseline|));
    RoundTwice(Ratio(overlap, |baseline|));
    assert dependencies != [] ==> dependencies[0].sourceBuild in m.builds;
    hide Round6, Ratio, Changed, Duplicated;
    if 0 < |baseline| && overlap < counted { RoundSeparates(overlap, counted, |baseline|); }
  }

  /**
   The metrics of a candidate that is merged row by row are accepted exactly when it adds no key absent from the
   baseline; those of one that replaces the whole file, only when the keys are the same.
   */
  lemma AcceptedIffNothingAdded<K, V>(baseline: map<K, V>, candidate: map<K, V>, whole: bool, dependencies: seq<Dependency>)
    requires |baseline| <= MAX_RECORDS
    ensures Validate(MetricsOf(baseline, candidate, whole, dependencies)).Ok? <==>
      candidate.Keys <= baseline.Keys && (whole ==> candidate.Keys == baseline.Keys)
  {
    AcceptedIffCountsAgree(baseline, candidate, whole, dependencies);
    var both, all := baseline.Keys * candidate.Keys, if whole then baseline.Keys + candidate.Keys else candidate.Keys;
    SubsetSize(both, all);
    if candidate.Keys <= baseline.Keys && (whole ==> candidate.Keys == baseline.Keys) { assert both == all; }
    if both == all {
      assert candidate.Keys <= baseline.Keys;
      assert whole ==> baseline.Keys <= both;
    }
  }

  /** An added key has the metrics rejected, for one of two reasons. */
  lemma WhyRejected<K, V>(baseline: map<K, V>, candidate: map<K, V>, dependencies: seq<Dependency>)
    requires |baseline| <= MAX_RECORDS && !(candidate.Keys <= baseline.Keys)
    ensures Validate(MetricsOf(baseline, candidate, false, dependencies)) ==
      Err(if |candidate| > |baseline| then TooManyRecords else InconsistentRatio)
  {
    CountsPartition(baseline, candidate, false);
    PartSizes(baseline.Keys, candidate.Keys);
    hide Round6, Ratio, Changed, Duplicated;
    var overlap := Overlap(baseline, candidate);
    RatioIsShare(overlap, |baseline|);
    RoundedShare(Ratio(overlap, |baseline|));
    RoundTwice(Ratio(overlap, |baseline|));
    if |candidate| <= |baseline| { RoundSeparates(overlap, |candidate|, |baseline|); }
  }

  lemma PartSizes<K>(b: set<K>, c: set<K>)
    ensures |b * c| <= |b| && |b * c| <= |c| && (|b * c| == |c| ==> c <= b)
  {
    SubsetSize(b * c, b);
    SubsetSize(b * c, c);
  }

  // ----- profiles -----

  datatype TableType = OldTable | NewTable | OtherTable
  datatype PatchBehavior = FullRowRequired | PartialRowMerge | ReplaceWholeFile | OtherPatch
  datatype Omission = PreservePrevious | Invalid | OtherOmission
  datatype Profile = Profile(table: TableType, patch: PatchBehavior, omission: Omission)

  /** `resolution_supported`: the two kinds of profile whose rows are merged at all. */
  predicate ResolutionSupported(p: Profile) {
    || p == Profile(OldTable, FullRowRequired, Invalid)
    || p == Profile(NewTable, PartialRowMerge, PreservePrevious)
  }

  /** The effective records of a table: none, unless the profile is supported. */
  function EffectiveRecords<K, V>(p: Profile, merged: map<K, V>): map<K, V> {
    if ResolutionSupported(p) then merged else map[]
  }

  /** The metrics part of `compare_table_semantics`. */
  method CompareTables<K, V(==)>(p: Profile, baseline: map<K, V>, candidate: map<K, V>, dependencies: seq<Dependency>)
    returns (m: Metrics)
    ensures m == MetricsOf(EffectiveRecords(p, baseline), EffectiveRecords(p, candidate), p.patch == ReplaceWholeFile, dependencies)
  {
    var b, c := EffectiveRecords(p, baseline), EffectiveRecords(p, candidate);
    var changed, duplicated := CountChanges(b, c, p.patch == ReplaceWholeFile);
    var overlap := |b.Keys * c.Keys|;
    var full := |b| > 0 && overlap == |b|;
    m := Metrics(|b|, |c|, |changed|, duplicated, Round6(Ratio(overlap, |b|)), full,
                 set i | 0 <= i < |dependencies| :: dependencies[i].sourceBuild,
                 set i | 0 <= i < |dependencies| :: dependencies[i].sha256,
                 if full && dependencies != [] then ReviewRequired else NoneObserved);
  }

  /**
   What a comparison emits is accepted exactly when the profile is unsupported, so that there are no effective
   records, or the candidate adds no key. A profile that replaces whole files is never supported.
   */
  lemma EmittedMetricsAccepted<K, V>(p: Profile, baseline: map<K, V>, candidate: map<K, V>, dependencies: seq<Dependency>)
    requires |baseline| <= MAX_RECORDS
    ensures Validate(MetricsOf(EffectiveRecords(p, baseline), EffectiveRecords(p, candidate), p.patch == ReplaceWholeFile, dependencies)).Ok?
      <==> !ResolutionSupported(p) || candidate.Keys <= baseline.Keys
  {
    AcceptedIffNothingAdded(EffectiveRecords(p, baseline), EffectiveRecords(p, candidate), p.patch == ReplaceWholeFile, dependencies);
    hide MetricsOf, Validate;
  }
}
