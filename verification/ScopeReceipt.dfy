/** The target-scope receipt: how a guard judges observed access, and what re-checking its receipt finds. */
module ScopeReceipt {
  /** A canonical path with case already folded: its components, and whether it starts at the root. */
  datatype Path = Path(absolute: bool, parts: seq<string>)

  datatype Limit = Files | ArchiveEntries | PhysicalBytes | ResponseBytes

  datatype Limits = Limits(files: nat, archiveEntries: nat, physicalBytes: nat, responseBytes: nat)

  datatype Access = Access(
    roots: set<Path>, files: nat, archiveEntries: nat, physicalBytes: nat, otherProviderRecords: nat,
    outOfScope: set<Path>, responseBytes: nat, scanComplete: bool, limitsReached: set<Limit>)

  datatype Status = InScope | Breach | LimitReached | Inconclusive

  datatype Diagnostic = RootsOutside | OtherProvider | PathsReported | LimitsReached | ScanIncomplete

  datatype Guard = Guard(allowedRoots: set<Path>, limits: Limits)

  datatype Receipt = Receipt(access: Access, status: Status, diagnostics: set<Diagnostic>)

  /** `_path_is_within`. */
  predicate Within(path: Path, root: Path) { path.absolute == root.absolute && root.parts <= path.parts }

  function Leaked(g: Guard, a: Access): set<Path> {
    set root | root in a.roots && forall allowed :: allowed in g.allowedRoots ==> !Within(root, allowed)
  }

  function Exceeded(g: Guard, a: Access): set<Limit> {
    (if a.files > g.limits.files then {Files} else {})
    + (if a.archiveEntries > g.limits.archiveEntries then {ArchiveEntries} else {})
    + (if a.physicalBytes > g.limits.physicalBytes then {PhysicalBytes} else {})
    + (if a.responseBytes > g.limits.responseBytes then {ResponseBytes} else {})
  }

  function StatusOf(outOfScope: set<Path>, otherProviderRecords: nat, limits: set<Limit>, complete: bool): Status {
    if outOfScope != {} || otherProviderRecords > 0 then Breach
    else if limits != {} then LimitReached
    else if !complete then Inconclusive
    else InScope
  }

  /** The diagnostics, which the receipt lists in this order. */
  function DiagnosticsOf(leaked: bool, other: bool, reported: bool, limits: bool, incomplete: bool): set<Diagnostic> {
    (if leaked then {RootsOutside} else {}) + (if other then {OtherProvider} else {})
    + (if reported && !leaked then {PathsReported} else {}) + (if limits then {LimitsReached} else {})
    + (if incomplete then {ScanIncomplete} else {})
  }

  /** `ScopeGuard.emit`. */
  function Emit(g: Guard, a: Access): Receipt {
    var leaked := Leaked(g, a);
    var outOfScope := a.outOfScope + leaked;
    var limits := a.limitsReached + Exceeded(g, a);
    Receipt(a.(outOfScope := outOfScope, limitsReached := limits),
            StatusOf(outOfScope, a.otherProviderRecords, limits, a.scanComplete),
            DiagnosticsOf(leaked != {}, a.otherProviderRecords > 0, outOfScope != {}, limits != {}, !a.scanComplete))
  }

  /** `validate_receipt`, past the declaration and shape checks: the status must match the recorded access. */
  predicate Validates(g: Guard, r: Receipt) { Emit(g, r.access).status == r.status }

  datatype Verdict = Accepted | Invalid | ScopeBreach | ScopeLimit | ScopeInconclusive

  /** `require_ok`. */
  function RequireOk(g: Guard, r: Receipt): Verdict {
    if !Validates(g, r) then Invalid
    else match r.status
      case Breach => ScopeBreach
      case LimitReached => ScopeLimit
      case Inconclusive => ScopeInconclusive
      case InScope => Accepted
  }

  /** Judging the access that a receipt records gives the receipt again. */
  lemma EmitIdempotent(g: Guard, a: Access)
    ensures Emit(g, Emit(g, a).access) == Emit(g, a)
  {
    var b := Emit(g, a).access;
    assert Leaked(g, b) == Leaked(g, a);
    assert Exceeded(g, b) == Exceeded(g, a);
    assert b.outOfScope + Leaked(g, b) == b.outOfScope;
    assert b.limitsReached + Exceeded(g, b) == b.limitsReached;
  }

  /**
   A guard accepts its own receipt exactly when every touched root lies within an allowed one, nothing out of
   scope or of another provider was touched, no limit was passed or reported, and the scan completed.
   */
  lemma AcceptedIffInScope(g: Guard, a: Access)
    ensures RequireOk(g, Emit(g, a)) != Invalid
    ensures RequireOk(g, Emit(g, a)) == Accepted <==>
      && (forall root :: root in a.roots ==> exists allowed :: allowed in g.allowedRoots && Within(root, allowed))
      && a.outOfScope == {} && a.otherProviderRecords == 0 && a.limitsReached == {} && a.scanComplete
      && a.files <= g.limits.files && a.archiveEntries <= g.limits.archiveEntries
      && a.physicalBytes <= g.limits.physicalBytes && a.responseBytes <= g.limits.responseBytes
  {
    EmitIdempotent(g, a);
    if Leaked(g, a) == {} {
      forall root | root in a.roots ensures exists allowed :: allowed in g.allowedRoots && Within(root, allowed) {
        assert root !in Leaked(g, a);
      }
    } else {
      var root :| root in Leaked(g, a);
      assert a.outOfScope + Leaked(g, a) != {};
    }
    assert Exceeded(g, a) == {} <==>
      a.files <= g.limits.files && a.archiveEntries <= g.limits.archiveEntries
      && a.physicalBytes <= g.limits.physicalBytes && a.responseBytes <= g.limits.responseBytes;
  }
}
