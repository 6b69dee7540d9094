/**
 The candidate install and rollback transactions, step by step, over one mods folder.

 File operations may fail while the machine's fault budget lasts: they may raise, and a copy or a new file
 may come out wrong without raising. Two assumptions carry weight: the atomic rewrite of `mod_order.txt` is
 all or nothing and never writes other bytes, which the install does not compare afterwards; and every fault
 is one that `except Exception` catches, so an interrupt or a power loss is outside the model. All safety
 results hold for any budget; a budget of 0 is a fault-free run, a budget of 1 a run with a single fault.
 */
module Deployment {
  import opened Wrappers
  import opened ModOrder

  type Path = string
  datatype Node = Directory | File(content: Bytes)
  type Tree = map<Path, Node>

  /** SHA-256 as an injective digest: of a tree's manifest, or of a file's bytes. */
  datatype Digest = TreeDigest(tree: Tree) | FileDigest(content: Bytes)

  type Ledger = map<Path, (nat, Digest)>

  const MAX_ORDER_BYTES := 4 * 1024 * 1024
  const MAX_RECEIPT_BYTES := 1024 * 1024
  const MAX_FILE_BYTES := 16 * 1024 * 1024 * 1024
  const MAX_FOLDER_ENTRIES := 4096

  /** `_tree_byte_state`: the size and digest of each file. */
  function LedgerOf(tree: Tree): Ledger {
    map p | p in tree && tree[p].File? :: (|tree[p].content|, FileDigest(tree[p].content))
  }

  predicate SubTree(a: Tree, b: Tree) { forall p :: p in a ==> p in b && a[p] == b[p] }

  /** What a target folder can be while it is swapped: gone, or part of the new tree or of the old one. */
  predicate Between(target: Option<Tree>, source: Tree, original: Option<Tree>) {
    target.Some? ==> SubTree(target.value, source) || (original.Some? && SubTree(target.value, original.value))
  }

  datatype Boundary = AfterBackup | AfterIncomingCopy | AfterTargetDisplacement | AfterTargetSwap
                    | AfterModOrderSwap | BeforeReceipt

  datatype Receipt = Receipt(
    originalDigest: Option<Digest>, installedDigest: Digest, orderBefore: Digest, orderAfter: Digest,
    originalFiles: Ledger, installedFiles: Ledger, orderBeforeBytes: nat, orderAfterBytes: nat,
    artifacts: map<Path, Artifact>)
  {
    predicate TargetExisted() { originalDigest.Some? }
  }

  /** The observed state that a rollback compares with its receipt. */
  datatype ByteState = ByteState(orderBytes: nat, order: Digest, files: Ledger, tree: Option<Digest>)

  /** The folder of one transaction. `work` is `rollback-current`. */
  datatype Transaction = Transaction(
    backupOrder: Option<Bytes>, backupTarget: Option<Tree>, incoming: Option<Tree>,
    receipt: Option<Receipt>, failureReceipt: bool, work: Option<Work>, rolledBack: bool)
  datatype Work = Work(target: Option<Tree>, order: Option<Bytes>)

  const NEW_TRANSACTION := Transaction(None, None, None, None, false, None, false)

  /** A registered artifact. A native component is registered with the candidate, but is no part of its folder. */
  datatype Artifact = Artifact(native: bool, bytes: nat, sha: Digest)

  datatype Candidate = Candidate(source: Tree, artifacts: map<Path, Artifact>, mod: Mod) {
    /** What the candidate's folder has to hold. */
    function Registered(): Ledger {
      map p | p in artifacts && !artifacts[p].native :: (artifacts[p].bytes, artifacts[p].sha)
    }
  }

  datatype RestoreError = TargetMutatedBeforeBackup | OrderMutatedBeforeBackup | RestoreFailed

  datatype Flags = Flags(backupVerified: bool, targetMutated: bool, orderMutated: bool)

  datatype InstallOutcome = Installed(receipt: Receipt) | InstallRefused | InstallUndone
                          | InstallStuck(error: RestoreError)

  datatype RollbackOutcome = RolledBack | RollbackRefused | RollbackUndone | RollbackStuck

  /** What an install's receipt says. */
  function ReceiptOf(c: Candidate, original: Option<Tree>, before: Bytes, after: Bytes): Receipt {
    Receipt(if original.Some? then Some(TreeDigest(original.value)) else None, TreeDigest(c.source),
            FileDigest(before), FileDigest(after),
            if original.Some? then LedgerOf(original.value) else map[], LedgerOf(c.source),
            |before|, |after|, c.artifacts)
  }

  // ----- safe paths -----

  const UNSAFE := {'<', '>', ':', '"', '/', '\\', '|', '?', '*', '\0'}
  const RESERVED := {"CON", "PRN", "AUX", "NUL"}

  function Upper(s: string): string {
    seq(|s|, i requires 0 <= i < |s| => if 'a' <= s[i] <= 'z' then s[i] - 'a' + 'A' else s[i])
  }

  /** Everything before the first occurrence of a character. */
  function Before(s: string, c: char): (r: string)
    ensures r <= s && c !in r
  {
    if s == [] || s[0] == c then [] else [s[0]] + Before(s[1..], c)
  }

  /** A device name of Windows: CON, PRN, AUX, NUL, and COM or LPT with a digit. */
  predicate Reserved(stem: string) {
    stem in RESERVED || (|stem| == 4 && stem[..3] in {"COM", "LPT"} && '1' <= stem[3] <= '9')
  }

  /** `_safe_windows_component`. */
  predicate SafeComponent(s: string) {
    && 1 <= |s| <= 260 && s != "." && s != ".." && (forall i :: 0 <= i < |s| ==> s[i] !in UNSAFE)
    && s[|s| - 1] != ' ' && s[|s| - 1] != '.' && !Reserved(Upper(Before(s, '.')))
  }

  /** `_safe_relative_artifact_path`: every component is safe, so none is empty and the path is not absolute. */
  predicate SafePath(p: Path) {
    var first := Before(p, '/');
    SafeComponent(first) && (first == p || SafePath(p[|first| + 1..]))
  }

  /** A relative path that names nothing: its components are empty or a single dot. */
  predicate NamesNothing(p: Path) {
    && (p != [] ==> p[0] == '.') && (forall i :: 0 <= i < |p| ==> p[i] == '.' || p[i] == '/')
    && (forall i :: 0 < i < |p| ==> p[i - 1] == '/' || p[i] == '/')
  }

  /** The receipt asks every artifact for the first component of its path. */
  predicate Recordable(c: Candidate) { forall p :: p in c.artifacts ==> !NamesNothing(p) }

  class Machine {
    /** The fixed entry and byte bounds on trees, and the size of a serialized receipt. */
    const fits: Tree -> bool
    const documentBytes: Receipt -> nat

    var target: Option<Tree>
    var order: Bytes
    /** How many other entries the mods folder has, `mod_order.txt` among them. */
    var others: nat
    var transactions: map<string, Transaction>
    var budget: nat
    /** The receipts rolled back so far, in order. */
    ghost var completed: seq<string>

    constructor (fits: Tree -> bool, documentBytes: Receipt -> nat, target: Option<Tree>, order: Bytes, others: nat,
                 budget: nat)
      ensures Valid() && this.fits == fits && this.documentBytes == documentBytes
      ensures this.target == target && this.order == order && this.others == others
      ensures this.budget == budget && transactions == map[]
    {
      this.fits, this.documentBytes := fits, documentBytes;
      this.target, this.order, this.others, this.budget := target, order, others, budget;
      transactions, completed := map[], [];
    }

    // ----- what holds of every machine that installs and rollbacks have produced -----

    /** A receipt agrees with itself: its byte counts and its file ledger belong to the states that its digests name. */
    static predicate Consistent(r: Receipt) {
      && r.orderBefore.FileDigest? && |r.orderBefore.content| == r.orderBeforeBytes <= MAX_ORDER_BYTES
      && r.orderAfterBytes <= MAX_ORDER_BYTES
      && match r.originalDigest
         case None => r.originalFiles == map[]
         case Some(d) => d.TreeDigest? && r.originalFiles == LedgerOf(d.tree)
    }

    static ghost predicate Sound(transactions: map<string, Transaction>, completed: seq<string>) {
      && (forall i :: 0 <= i < |completed| ==> completed[i] in transactions && transactions[completed[i]].rolledBack)
      && (forall i, j :: 0 <= i < j < |completed| ==> completed[i] != completed[j])
    }

    ghost predicate Valid()
      reads this
    {
      Sound(transactions, completed)
    }

    ghost predicate MonotoneBounds() { forall a, b :: SubTree(a, b) && fits(b) ==> fits(a) }

    // ----- file operations -----

    method Fault() returns (fault: bool)
      modifies `budget
      ensures budget == if fault then old(budget) - 1 else old(budget)
    {
      fault := *;
      if budget == 0 { fault := false; }
      if fault { budget := budget - 1; }
    }

    /** `_tree_sha256` of an existing tree. */
    method TreeSha(tree: Tree) returns (digest: Option<Digest>)
      modifies `budget
      ensures digest.Some? ==> fits(tree) && digest.value == TreeDigest(tree)
      ensures budget <= old(budget)
      ensures budget == old(budget) && fits(tree) ==> digest.Some?
    {
      var fault := Fault();
      return if fault || !fits(tree) then None else Some(TreeDigest(tree));
    }

    /**
     `shutil.copytree`: a fault raises with a partial copy, or goes unnoticed with a wrong one. No copy
     outgrows the bounds that its source meets.
     */
    method RawCopy(source: Tree) returns (raised: bool, copy: Option<Tree>)
      modifies `budget
      ensures budget == old(budget) ==> !raised && copy == Some(source)
      ensures !raised ==> copy.Some?
      ensures budget <= old(budget)
      ensures MonotoneBounds() && fits(source) && copy.Some? ==> fits(copy.value)
    {
      var fault := Fault();
      raised, copy := false, Some(source);
      if fault {
        raised := *;
        var part: Tree :| SubTree(part, source);
        var wrong: Tree :| fits(source) ==> fits(wrong);
        copy := Some(if raised then part else wrong);
        var nothing := *;
        if raised && nothing { copy := None; }
      }
    }

    /** `_copy_verified_tree`: `destination` is what stands at the target path before, `result` after. */
    method CopyVerified(source: Tree, destination: Option<Tree>) returns (ok: bool, result: Option<Tree>)
      modifies `budget
      ensures ok ==> destination.None? && result == Some(source) && fits(source)
      ensures budget <= old(budget)
      ensures budget == old(budget) && destination.None? && fits(source) ==> ok
      ensures destination.Some? ==> result == destination
      ensures destination.None? && MonotoneBounds() && result.Some? ==> fits(result.value)
    {
      hide SubTree, MonotoneBounds;
      var digest := TreeSha(source);
      if digest.None? || destination.Some? { return false, destination; }
      var raised, copy := RawCopy(source);
      if raised { return false, copy; }
      var observed := TreeSha(copy.value);
      return observed == digest, copy;
    }

    /** `_remove_tree`: a fault may strike halfway. */
    method RemoveTree(tree: Tree) returns (ok: bool, rest: Option<Tree>)
      modifies `budget
      ensures if ok then rest.None? else rest.Some? && SubTree(rest.value, tree)
      ensures budget <= old(budget)
      ensures budget == old(budget) && fits(tree) ==> ok
    {
      var digest := TreeSha(tree);
      if digest.None? { return false, Some(tree); }
      var fault := Fault();
      if !fault { return true, None; }
      var left: Tree :| SubTree(left, tree);
      return false, Some(left);
    }

    /** `_write_new_file`: a fault may raise, or leave wrong bytes behind. */
    method WriteNew(content: Bytes) returns (raised: bool, written: Option<Bytes>)
      modifies `budget
      ensures budget == old(budget) ==> !raised && written == Some(content)
      ensures !raised ==> written.Some?
      ensures budget <= old(budget)
    {
      var fault := Fault();
      raised, written := false, Some(content);
      if fault {
        raised, written := *, *;
        if !raised && written.None? { raised := true; }
      }
    }

    /** `_atomic_write_bytes` to `mod_order.txt`: all or nothing. */
    method WriteOrder(content: Bytes) returns (ok: bool)
      modifies `budget, `order
      ensures order == if ok then content else old(order)
      ensures budget <= old(budget)
      ensures budget == old(budget) ==> ok
    {
      var fault := Fault();
      if !fault { order := content; }
      return !fault;
    }

    // ----- install -----

    /** Copies the originals into the transaction folder and reads both copies back. */
    method BackUp(original: Bytes, originalDigest: Option<Digest>) returns (verified: bool, t: Transaction)
      requires Holds(target, originalDigest)
      modifies `budget
      ensures budget <= old(budget) && (budget == old(budget) ==> verified)
      ensures t == NEW_TRANSACTION.(backupOrder := t.backupOrder, backupTarget := t.backupTarget)
      ensures verified ==> t.backupOrder == Some(original) && t.backupTarget == target
    {
      verified, t := false, NEW_TRANSACTION;
      var fault := Fault();                             // backup folder and the accepted attestations
      if fault { return; }
      var raised, written := WriteNew(original);
      t := t.(backupOrder := written);
      if raised { return; }
      if target.Some? {
        var copied, copy := CopyVerified(target.value, None);
        t := t.(backupTarget := copy);
        if !copied { return; }
        var backupDigest := TreeSha(copy.value);
        if backupDigest != originalDigest { return; }
      }
      fault := Fault();
      verified := !fault && FileDigest(written.value) == FileDigest(original);
    }

    /** Copies the candidate beside the backup and verifies the copy against the registered artifacts. */
    method StageIncoming(c: Candidate) returns (ok: bool, incoming: Option<Tree>)
      modifies `budget
      ensures budget <= old(budget)
      ensures budget == old(budget) && fits(c.source) && LedgerOf(c.source) == c.Registered() ==> ok
      ensures ok ==> incoming == Some(c.source) && fits(c.source)
    {
      hide LedgerOf;
      ok, incoming := CopyVerified(c.source, None);
      if !ok { return; }
      var installedDigest := TreeSha(incoming.value);
      ok := installedDigest.Some? && LedgerOf(incoming.value) == c.Registered();
    }

    /** Removes the old target and moves the staged one into its place. */
    method SwapTarget(staged: Tree, boundary: Option<Boundary>) returns (ok: bool, moved: bool)
      modifies `target, `budget
      ensures budget <= old(budget)
      ensures budget == old(budget) && boundary.None? && (old(target).Some? ==> fits(old(target).value)) ==> ok
      ensures Between(target, staged, old(target))
      ensures ok ==> moved
      ensures moved ==> target == Some(staged)
      ensures ok ==> boundary != Some(AfterTargetDisplacement) && boundary != Some(AfterTargetSwap)
    {
      if target.Some? {
        var removed, rest := RemoveTree(target.value);
        target := rest;
        if !removed { return false, false; }
      }
      if boundary == Some(AfterTargetDisplacement) { return false, false; }
      var fault := Fault();
      if fault { return false, false; }
      target := Some(staged);                           // os.replace
      return boundary != Some(AfterTargetSwap), true;
    }

    /** Writes the load order, and checks what was installed. */
    method SwapOrder(c: Candidate, updated: Bytes, boundary: Option<Boundary>) returns (ok: bool)
      requires target == Some(c.source) && fits(c.source)
      modifies `order, `budget
      ensures budget <= old(budget)
      ensures ok ==> order == updated && Verify(c.mod, updated).Ok?
      ensures budget == old(budget) && boundary.None? && Verify(c.mod, updated).Ok? ==> ok
      ensures ok ==> boundary != Some(AfterModOrderSwap) && boundary != Some(BeforeReceipt)
    {
      hide Verify;
      ok := WriteOrder(updated);
      if !ok || boundary == Some(AfterModOrderSwap) { return false; }
      var observed := TreeSha(target.value);
      var fault := Fault();
      if observed != Some(TreeDigest(c.source)) || fault || Verify(c.mod, order).Err? { return false; }
      return boundary != Some(BeforeReceipt);
    }

    /** The body of the install's `try` block, up to the persisted receipt. */
    method InstallSteps(c: Candidate, updated: Bytes, originalDigest: Option<Digest>, boundary: Option<Boundary>)
      returns (ok: bool, flags: Flags, t: Transaction)
      requires Holds(target, originalDigest)
      modifies `target, `order, `budget
      ensures budget <= old(budget)
      // the order of the steps: nothing moves before a verified backup
      ensures flags.targetMutated ==> flags.backupVerified
      ensures flags.orderMutated ==> flags.targetMutated
      ensures !flags.targetMutated ==> target == old(target)
      ensures !flags.orderMutated ==> order == old(order)
      ensures flags.backupVerified ==> t.backupTarget == old(target) && t.backupOrder == Some(old(order))
      ensures flags.targetMutated ==> fits(c.source) && Between(target, c.source, old(target))
      ensures t.work.None? && !t.rolledBack && !t.failureReceipt
      // success and failure
      ensures ok ==> boundary.None? && target == Some(c.source) && order == updated && flags == Flags(true, true, true)
      ensures if ok then t.receipt.Some? && Describes(t.receipt.value, c, old(target), old(order), updated) else t.receipt.None?
      ensures budget == old(budget) && boundary.None? && fits(c.source) && LedgerOf(c.source) == c.Registered() ==>
        (ok <==> Verify(c.mod, updated).Ok? && Recordable(c))
      ensures ok ==> Recordable(c)
    {
      hide LedgerOf, Verify, SubTree, NamesNothing;
      flags := Flags(false, false, false);
      var receipt := Receipt(originalDigest, TreeDigest(c.source), FileDigest(order), FileDigest(updated),
        if target.Some? then LedgerOf(target.value) else map[], LedgerOf(c.source), |order|, |updated|, c.artifacts);
      ok, t := BackUp(order, originalDigest);
      if !ok { return; }
      flags := flags.(backupVerified := true);
      if boundary == Some(AfterBackup) { ok := false; return; }
      var incoming;
      ok, incoming := StageIncoming(c);
      t := t.(incoming := incoming);
      if !ok || boundary == Some(AfterIncomingCopy) { ok := false; return; }
      flags := flags.(targetMutated := true);
      var moved;
      ok, moved := SwapTarget(incoming.value, boundary);
      if moved { t := t.(incoming := None); }
      if !ok { return; }
      flags := flags.(orderMutated := true);
      ok := SwapOrder(c, updated, boundary);
      if !ok { return; }
      var fault := Fault();
      if fault || !Recordable(c) { ok := false; return; }
      BoundaryCases(boundary);
      t := t.(receipt := Some(receipt));
    }

    lemma BoundaryCases(boundary: Option<Boundary>)
      ensures boundary in [None, Some(AfterBackup), Some(AfterIncomingCopy), Some(AfterTargetDisplacement),
                           Some(AfterTargetSwap), Some(AfterModOrderSwap), Some(BeforeReceipt)]
    {
      if boundary.Some? {
        match boundary.value {
          case AfterBackup =>
          case AfterIncomingCopy =>
          case AfterTargetDisplacement =>
          case AfterTargetSwap =>
          case AfterModOrderSwap =>
          case BeforeReceipt =>
        }
      }
    }

    /** What a restoration needs in order to succeed without a further fault. */
    predicate Restorable(t: Transaction, originalDigest: Option<Digest>, original: Bytes, flags: Flags)
      reads this
    {
      && (flags.orderMutated || order == original)
      && (flags.orderMutated ==> flags.backupVerified)
      && (target.Some? ==> fits(target.value))
      && if flags.targetMutated then flags.backupVerified && Holds(t.backupTarget, originalDigest)
         else Holds(target, originalDigest)
    }

    predicate Holds(tree: Option<Tree>, digest: Option<Digest>) {
      if digest.None? then tree.None? else tree.Some? && fits(tree.value) && digest == Some(TreeDigest(tree.value))
    }

    /** `_restore_install_original`. */
    method RestoreOriginal(t: Transaction, originalDigest: Option<Digest>, original: Bytes, flags: Flags)
      returns (error: Option<RestoreError>)
      requires flags.targetMutated && flags.backupVerified && originalDigest.Some? ==> t.backupTarget.Some?
      modifies `target, `order, `budget
      ensures budget <= old(budget)
      ensures error == Some(TargetMutatedBeforeBackup) <==> flags.targetMutated && !flags.backupVerified
      ensures error == Some(OrderMutatedBeforeBackup) ==> flags.orderMutated && !flags.backupVerified
      ensures error.None? ==> order == original && Holds(target, originalDigest)
      ensures budget == old(budget) && old(Restorable(t, originalDigest, original, flags)) ==> error.None?
      ensures !flags.targetMutated ==> target == old(target)
      ensures !flags.orderMutated ==> order == old(order)
    {
      if flags.targetMutated {
        if !flags.backupVerified { return Some(TargetMutatedBeforeBackup); }
        if target.Some? {
          var removed, rest := RemoveTree(target.value);
          target := rest;
          if !removed { return Some(RestoreFailed); }
        }
        if originalDigest.Some? {
          var copied, copy := CopyVerified(t.backupTarget.value, target);
          target := copy;
          if !copied { return Some(RestoreFailed); }
          var observed := TreeSha(target.value);
          if observed != originalDigest { return Some(RestoreFailed); }
        }
      } else if originalDigest.Some? {
        if target.None? { return Some(RestoreFailed); }
        var observed := TreeSha(target.value);
        if observed != originalDigest { return Some(RestoreFailed); }
      } else if target.Some? {
        return Some(RestoreFailed);
      }
      if flags.orderMutated {
        if !flags.backupVerified { return Some(OrderMutatedBeforeBackup); }
        var wrote := WriteOrder(original);
        if !wrote { return Some(RestoreFailed); }
      }
      var fault := Fault();
      if fault || FileDigest(order) != FileDigest(original) { return Some(RestoreFailed); }
      return None;
    }

    /** A transaction as a successful install leaves it: the exact originals backed up, and no rollback yet. */
    static predicate Fresh(t: Transaction, receipt: Receipt, original: Option<Tree>, order: Bytes) {
      && t.receipt == Some(receipt) && t.work.None? && !t.rolledBack
      && t.backupTarget == original && t.backupOrder == Some(order)
    }

    static predicate Describes(r: Receipt, c: Candidate, original: Option<Tree>, before: Bytes, after: Bytes) {
      r == ReceiptOf(c, original, before, after)
    }

    /** `_target_child`: the entries of the mods folder are within their bound. */
    predicate Listed()
      reads this
    {
      others + (if target.Some? then 1 else 0) <= MAX_FOLDER_ENTRIES
    }

    /** What the install's preflight asks of the machine and the candidate. */
    predicate Installable(id: string, c: Candidate, snapshot: Digest)
      reads this
    {
      && id !in transactions
      && |order| <= MAX_ORDER_BYTES && FileDigest(order) == snapshot
      && LedgerOf(c.source) == c.Registered() && fits(c.source)
      && c.Registered() != map[] && (forall p :: p in c.Registered() ==> SafePath(p) && c.Registered()[p].0 <= MAX_FILE_BYTES)
      && Listed()
      && (target.Some? ==> fits(target.value))
      && Edit(c.mod, order).Ok? && |Edit(c.mod, order).value| <= MAX_ORDER_BYTES
    }

    /** The checks before the transaction starts: the edited load order and the target's digest, or a refusal. */
    method Preflight(id: string, c: Candidate, snapshot: Digest) returns (plan: Option<(Bytes, Option<Digest>)>)
      modifies `budget
      ensures budget <= old(budget)
      ensures plan.Some? ==> Installable(id, c, snapshot) && Ok(plan.value.0) == Edit(c.mod, order) && Holds(target, plan.value.1)
      ensures budget == old(budget) && Installable(id, c, snapshot) ==> plan.Some?
    {
      hide Edit, LedgerOf, SafePath;
      if id in transactions || |order| > MAX_ORDER_BYTES || FileDigest(order) != snapshot
         || LedgerOf(c.source) != c.Registered() || c.Registered() == map[] || !Listed()
         || exists p :: p in c.Registered() && (!SafePath(p) || c.Registered()[p].0 > MAX_FILE_BYTES) {
        return None;
      }
      var sourceDigest := TreeSha(c.source);            // _verify_candidate_source lists the whole source tree
      if sourceDigest.None? { return None; }
      var edited := Edit(c.mod, order);
      if edited.Err? || |edited.value| > MAX_ORDER_BYTES { return None; }
      var originalDigest: Option<Digest> := None;
      if target.Some? {
        originalDigest := TreeSha(target.value);
        if originalDigest.None? { return None; }
      }
      var fault := Fault();                             // creating the transaction folder exclusively
      if fault { return None; }
      return Some((edited.value, originalDigest));
    }

    lemma InstallKeepsValid(id: string, c: Candidate, t: Transaction, before: Option<Tree>, order: Bytes, updated: Bytes,
                            transactions: map<string, Transaction>)
      requires Sound(transactions, completed) && id !in transactions && !t.rolledBack
      requires |order| <= MAX_ORDER_BYTES && |updated| <= MAX_ORDER_BYTES
      requires t.receipt.Some? ==> Fresh(t, t.receipt.value, before, order) && Describes(t.receipt.value, c, before, order, updated)
      ensures Sound(transactions[id := t], completed)
    {
      hide LedgerOf;
    }

    /** The transaction proper: install, or put the originals back. */
    method Transact(id: string, c: Candidate, updated: Bytes, originalDigest: Option<Digest>, boundary: Option<Boundary>)
      returns (outcome: InstallOutcome)
      requires Holds(target, originalDigest)
      requires fits(c.source) && LedgerOf(c.source) == c.Registered() && Verify(c.mod, updated).Ok?
      modifies `target, `order, `transactions, `budget
      ensures budget <= old(budget)
      ensures !outcome.InstallRefused?
      ensures id in transactions && transactions == old(transactions)[id := transactions[id]] && !transactions[id].rolledBack
      ensures outcome.Installed? ==> (
        && boundary.None? && target == Some(c.source) && order == updated && fits(c.source)
        && Fresh(transactions[id], outcome.receipt, old(target), old(order))
        && Describes(outcome.receipt, c, old(target), old(order), order))
      ensures !outcome.Installed? ==> transactions[id].receipt.None?
      ensures outcome.InstallUndone? ==> target == old(target) && order == old(order) && transactions[id].failureReceipt
      ensures outcome.InstallStuck? ==> outcome.error == RestoreFailed
      ensures outcome.InstallStuck? ==> (
        || (target == old(target) && order == old(order))
        || (transactions[id].backupTarget == old(target) && transactions[id].backupOrder == Some(old(order))))
      ensures outcome.Installed? ==> Recordable(c)
      ensures budget == old(budget) && boundary.None? && Recordable(c) ==> outcome.Installed?
      ensures old(budget) - budget <= (if boundary.None? && Recordable(c) then 1 else 0) && MonotoneBounds() ==> !outcome.InstallStuck?
    {
      hide LedgerOf, Verify, SubTree, Describes, Recordable;
      var original := order;
      var ok, flags, t := InstallSteps(c, updated, originalDigest, boundary);
      transactions := transactions[id := t];
      if ok { return Installed(t.receipt.value); }
      if MonotoneBounds() { StillFits(target, c.source, old(target)); }
      var error := RestoreOriginal(t, originalDigest, original, flags);
      if error.Some? { return InstallStuck(error.value); }
      var fault := Fault();                             // the failure receipt
      if fault { return InstallStuck(RestoreFailed); }
      transactions := transactions[id := t.(failureReceipt := true)];
      return InstallUndone;
    }

    lemma StillFits(target: Option<Tree>, source: Tree, original: Option<Tree>)
      requires MonotoneBounds() && (original.Some? ==> fits(original.value))
      ensures Between(target, source, original) && fits(source) && target.Some? ==> fits(target.value)
    {
    }

    /**
     `_install_candidate_impl`. The install is all-or-nothing: it swaps in the candidate and the edited load
     order, or refuses and touches nothing, or fails and puts the exact original bytes back. Only a further
     fault during that restoration leaves it stuck, and then the verified backup still holds the originals.
     */
    method Install(id: string, c: Candidate, snapshot: Digest, boundary: Option<Boundary>)
      returns (outcome: InstallOutcome)
      requires Valid()
      modifies `target, `order, `transactions, `budget
      ensures Valid()
      ensures budget <= old(budget)
      ensures outcome.Installed? ==> (
        && boundary.None? && old(Installable(id, c, snapshot))
        && target == Some(c.source) && Ok(order) == Edit(c.mod, old(order))
        && id in transactions && transactions == old(transactions)[id := transactions[id]]
        && Fresh(transactions[id], outcome.receipt, old(target), old(order))
        && Describes(outcome.receipt, c, old(target), old(order), order)
        && fits(c.source) && (old(target).Some? ==> fits(old(target).value)))
      ensures outcome.InstallRefused? ==> target == old(target) && order == old(order) && transactions == old(transactions)
      ensures !outcome.InstallRefused? ==> old(Installable(id, c, snapshot)) && id !in old(transactions)
      ensures outcome.InstallUndone? || outcome.InstallStuck? ==> (
        && id in transactions && transactions == old(transactions)[id := transactions[id]]
        && transactions[id].receipt.None?)
      ensures outcome.InstallUndone? ==> target == old(target) && order == old(order) && transactions[id].failureReceipt
      ensures outcome.InstallStuck? ==> outcome.error == RestoreFailed
      ensures outcome.InstallStuck? ==> (
        || (target == old(target) && order == old(order))
        || (transactions[id].backupTarget == old(target) && transactions[id].backupOrder == Some(old(order))))
      // a fault-free install succeeds exactly where its receipt can be written, and otherwise is undone
      ensures outcome.Installed? ==> Recordable(c)
      ensures old(budget) == 0 && boundary.None? && old(Installable(id, c, snapshot)) ==>
        (outcome.Installed? <==> Recordable(c)) && (!Recordable(c) && MonotoneBounds() ==> outcome.InstallUndone?)
      // a single fault never leaves it stuck
      ensures old(budget) <= 1 && MonotoneBounds() && (boundary.Some? || !Recordable(c) ==> old(budget) == 0) ==> !outcome.InstallStuck?
    {
      hide Edit, Verify, LedgerOf, MonotoneBounds, Describes, Recordable;
      var plan := Preflight(id, c, snapshot);
      if plan.None? { return InstallRefused; }
      var (updated, originalDigest) := plan.value;
      EditIsVerified(c.mod, order);
      outcome := Transact(id, c, updated, originalDigest, boundary);
      InstallKeepsValid(id, c, transactions[id], old(target), old(order), updated, old(transactions));
    }

    // ----- rollback -----

    /**
     `_read_receipt_document` and `_receipt_from_document`: the bounds and path rules a receipt must meet to be read.
     The bounds on its two file ledgers are those of the trees, which the install has met.
     */
    predicate Readable(r: Receipt) {
      && documentBytes(r) <= MAX_RECEIPT_BYTES
      && (forall p :: p in r.originalFiles.Keys + r.installedFiles.Keys + r.artifacts.Keys ==> SafePath(p))
      && (forall p :: p in r.artifacts ==> r.artifacts[p].bytes <= MAX_FILE_BYTES)
      && r.installedFiles != map[]
      && r.orderBeforeBytes <= MAX_ORDER_BYTES && r.orderAfterBytes <= MAX_ORDER_BYTES
    }

    /** Nothing has drifted since the install that wrote the receipt. */
    predicate Undrifted(r: Receipt)
      reads this
    {
      && target.Some? && fits(target.value) && TreeDigest(target.value) == r.installedDigest
      && |order| <= MAX_ORDER_BYTES && FileDigest(order) == r.orderAfter
    }

    /** The backup still is what the receipt recorded. */
    predicate BackupIntact(t: Transaction, r: Receipt) {
      && t.backupOrder.Some? && |t.backupOrder.value| <= MAX_ORDER_BYTES && FileDigest(t.backupOrder.value) == r.orderBefore
      && Holds(t.backupTarget, r.originalDigest)
    }

    /** Everything a rollback checks before it moves anything. */
    predicate Rollbackable(id: string)
      reads this
    {
      && id in transactions && transactions[id].receipt.Some?
      && Readable(transactions[id].receipt.value) && Listed() && Undrifted(transactions[id].receipt.value)
      && BackupIntact(transactions[id], transactions[id].receipt.value)
      && transactions[id].work.None? && !transactions[id].rolledBack
    }

    /** The recovery copy of an earlier rollback is still there. */
    predicate Spent(id: string)
      reads this
      ensures Spent(id) ==> !Rollbackable(id)
    {
      id in transactions && transactions[id].work.Some?
    }

    /** The checks before the recovery copy. */
    method CheckRollback(id: string) returns (accepted: bool)
      modifies `budget
      ensures budget <= old(budget)
      ensures accepted ==> Rollbackable(id)
      ensures budget == old(budget) && Rollbackable(id) ==> accepted
    {
      if id !in transactions || transactions[id].receipt.None? { return false; }
      var t := transactions[id];
      var r := t.receipt.value;
      if !Readable(r) || !Listed() || target.None? { return false; }
      var installed := TreeSha(target.value);
      if installed != Some(r.installedDigest) || |order| > MAX_ORDER_BYTES { return false; }
      var fault := Fault();
      if fault || FileDigest(order) != r.orderAfter { return false; }
      if t.backupOrder.None? || |t.backupOrder.value| > MAX_ORDER_BYTES { return false; }
      if FileDigest(t.backupOrder.value) != r.orderBefore { return false; }
      if r.TargetExisted() {
        if t.backupTarget.None? { return false; }
        var original := TreeSha(t.backupTarget.value);
        if original != r.originalDigest { return false; }
      } else if t.backupTarget.Some? {
        return false;
      }
      return t.work.None? && !t.rolledBack;
    }

    /** Prepares `rollback-current`, the copy of the installed state that a failed rollback goes back to. */
    method PrepareWork(r: Receipt) returns (ready: bool, work: Option<Work>)
      requires Undrifted(r)
      modifies `budget
      ensures budget <= old(budget) && (budget == old(budget) ==> ready)
      ensures ready ==> work == Some(Work(target, Some(order)))
    {
      var fault := Fault();
      if fault { return false, None; }
      var copied, copy := CopyVerified(target.value, None);
      var raised, written := false, None;
      if copied { raised, written := WriteNew(order); }
      if copied && !raised {
        var digest := TreeSha(copy.value);
        fault := Fault();
        if digest == Some(r.installedDigest) && !fault && FileDigest(written.value) == r.orderAfter {
          return true, Some(Work(copy, written));
        }
      }
      var left := *;                                    // removing the copy, which with its folder may pass the bounds
      work := if left then Some(Work(copy, written)) else None;
      return false, work;
    }

    ghost function Now(): State
      reads this
    {
      State(target, order)
    }

    function ObservedState(): (state: ByteState)
      reads this
      ensures state.tree.None? <==> target.None?
    {
      ByteState(|order|, FileDigest(order), if target.Some? then LedgerOf(target.value) else map[],
                if target.Some? then Some(TreeDigest(target.value)) else None)
    }

    /** Removes the installed target, copies the original back, rewrites the load order and verifies both. */
    method RestoreSteps(t: Transaction, r: Receipt) returns (ok: bool)
      requires t.receipt == Some(r) && BackupIntact(t, r) && Undrifted(r)
      modifies `target, `order, `budget
      ensures budget <= old(budget) && (budget == old(budget) && Consistent(r) ==> ok)
      ensures ok ==> target == t.backupTarget && Some(order) == t.backupOrder
      ensures MonotoneBounds() && target.Some? ==> fits(target.value)
    {
      hide LedgerOf;
      var removed, rest := RemoveTree(target.value);
      target := rest;
      if !removed { return false; }
      if r.TargetExisted() {
        ok, target := CopyVerified(t.backupTarget.value, target);
        if !ok { return false; }
      }
      ok := WriteOrder(t.backupOrder.value);
      if !ok { return false; }
      var restored: Option<Digest> := None;
      if r.TargetExisted() { restored := TreeSha(target.value); }
      var fault := Fault();
      if restored != r.originalDigest || fault || FileDigest(order) != r.orderBefore { return false; }
      fault := Fault();
      if fault || ObservedState() != ByteState(r.orderBeforeBytes, r.orderBefore, r.originalFiles, r.originalDigest) {
        return false;
      }
      fault := Fault();                                 // the rollback receipt
      return !fault;
    }

    /** The way back from a failed rollback: the recovery copy becomes the installed state again. */
    method Recover(work: Work) returns (ok: bool)
      requires work.target.Some? && work.order.Some?
      modifies `target, `order, `budget
      ensures budget <= old(budget)
      ensures ok ==> target == work.target && Some(order) == work.order
      ensures budget == old(budget) && (old(target).Some? ==> fits(old(target).value)) && fits(work.target.value) ==> ok
    {
      if target.Some? {
        var removed, rest := RemoveTree(target.value);
        target := rest;
        if !removed { return false; }
      }
      ok, target := CopyVerified(work.target.value, target);
      if ok { ok := WriteOrder(work.order.value); }
    }

    /** A receipt that no rollback has completed for can take a recovery copy, and can be completed once. */
    static lemma RollbackKeepsSound(id: string, t: Transaction, transactions: map<string, Transaction>, completed: seq<string>)
      requires Sound(transactions, completed) && id in transactions && !transactions[id].rolledBack
      requires t == transactions[id].(work := t.work, rolledBack := t.rolledBack)
      ensures !t.rolledBack ==> Sound(transactions[id := t], completed)
      ensures t.rolledBack ==> Sound(transactions[id := t], completed + [id])
    {
    }

    /**
     `_rollback_install_impl`. It restores the exact bytes backed up before the install, or refuses and moves
     nothing, or fails and goes back to exactly the installed state. Only a further fault on that way back
     leaves it stuck, and then the recovery copy still holds the installed state.
     */
    method Rollback(id: string) returns (outcome: RollbackOutcome)
      requires Valid()
      modifies `target, `order, `transactions, `budget, `completed
      ensures Valid()
      ensures budget <= old(budget)
      ensures transactions.Keys == old(transactions).Keys
      ensures id in transactions ==> (
        && transactions == old(transactions)[id := old(transactions)[id].(work := transactions[id].work, rolledBack := transactions[id].rolledBack)])
      ensures outcome.RolledBack? ==> (
        && old(Rollbackable(id))
        && target == old(transactions)[id].backupTarget && Some(order) == old(transactions)[id].backupOrder
        && transactions[id].rolledBack && completed == old(completed) + [id])
      ensures id !in old(transactions) ==> transactions == old(transactions)
      ensures outcome.RolledBack? ==> id in old(transactions) && Restores(old(transactions)[id], old(Now()), Now())
      ensures !outcome.RolledBack? ==> completed == old(completed) && (id in transactions ==> transactions[id].rolledBack == old(transactions)[id].rolledBack)
      // a rollback that was undone leaves its recovery copy behind, and no later one of the same receipt is accepted
      ensures outcome.RollbackUndone? ==> Spent(id)
      ensures old(Spent(id)) ==> outcome.RollbackRefused? && Spent(id)
      ensures outcome.RollbackRefused? || outcome.RollbackUndone? ==> target == old(target) && order == old(order)
      ensures outcome.RollbackStuck? ==> id in transactions && transactions[id].work == Some(Work(old(target), Some(old(order))))
      // any drift, a damaged backup, and an earlier rollback of the receipt are refused with nothing changed at all
      ensures !old(Rollbackable(id)) ==> outcome.RollbackRefused? && transactions == old(transactions)
      // with a receipt that agrees with itself, a fault-free rollback succeeds, and a single fault never leaves it stuck
      ensures old(budget) == 0 && old(Rollbackable(id)) && Consistent(old(transactions)[id].receipt.value) ==> outcome.RolledBack?
      ensures old(Rollbackable(id)) && Consistent(old(transactions)[id].receipt.value) && old(budget) <= 1 && MonotoneBounds() ==>
        !outcome.RollbackStuck?
      ensures old(budget) == 0 && MonotoneBounds() ==> !outcome.RollbackStuck?
    {
      hide LedgerOf, SubTree, MonotoneBounds, Sound, Consistent;
      var accepted := CheckRollback(id);
      if !accepted { return RollbackRefused; }
      var t := transactions[id];
      var ready, work := PrepareWork(t.receipt.value);
      t := t.(work := work);
      RollbackKeepsSound(id, t, transactions, completed);
      transactions := transactions[id := t];
      if !ready { return RollbackRefused; }
      var ok := RestoreSteps(t, t.receipt.value);
      if ok {
        RollbackKeepsSound(id, t.(rolledBack := true), transactions, completed);
        transactions := transactions[id := t.(rolledBack := true)];
        completed := completed + [id];
        return RolledBack;
      }
      ok := Recover(work.value);
      return if ok then RollbackUndone else RollbackStuck;
    }

    // ----- whole runs -----

    /**
     Whether an install can be rolled back, told from the candidate, the target and the load order. Its receipt must
     fit one MiB, the files of the old target must have safe paths, the native components safe paths and no more
     than 16 GiB, and the mods folder must have room for one more entry than it has without the target.
     */
    predicate Reversible(c: Candidate, original: Option<Tree>, before: Bytes, after: Bytes)
      reads this
    {
      && documentBytes(ReceiptOf(c, original, before, after)) <= MAX_RECEIPT_BYTES
      && (original.Some? ==> forall p :: p in original.value && original.value[p].File? ==> SafePath(p))
      && (forall p :: p in c.artifacts && c.artifacts[p].native ==> SafePath(p) && c.artifacts[p].bytes <= MAX_FILE_BYTES)
      && others < MAX_FOLDER_ENTRIES
    }

    /** The preflight sees to everything else that a rollback needs. */
    lemma ReversibleMeansReadable(id: string, c: Candidate, snapshot: Digest)
      requires Installable(id, c, snapshot)
      ensures var after := Edit(c.mod, order).value;
        Reversible(c, target, order, after) <==> Readable(ReceiptOf(c, target, order, after)) && others < MAX_FOLDER_ENTRIES
    {
      hide Edit, SafePath;
      var r := ReceiptOf(c, target, order, Edit(c.mod, order).value);
      assert forall p :: p in r.originalFiles <==> target.Some? && p in target.value && target.value[p].File?;
      assert r.installedFiles == c.Registered();
      forall p | p in c.artifacts && !c.artifacts[p].native ensures SafePath(p) && c.artifacts[p].bytes <= MAX_FILE_BYTES {
        assert p in c.Registered() && c.Registered()[p].0 == c.artifacts[p].bytes;
      }
    }

    /** An install followed by its rollback is the identity on the target folder and the load order. */
    method InstallThenRollback(id: string, c: Candidate, snapshot: Digest)
      returns (installed: InstallOutcome, undone: RollbackOutcome)
      requires Valid()
      modifies `target, `order, `transactions, `budget, `completed
      ensures Valid()
      ensures installed.Installed? && undone.RolledBack? ==> target == old(target) && order == old(order)
      ensures installed.Installed? && (undone.RollbackRefused? || undone.RollbackUndone?) ==>
        target == Some(c.source) && Ok(order) == Edit(c.mod, old(order))
      // without faults, the install succeeds where its receipt can be written, and the rollback where it is reversible
      ensures old(budget) == 0 && old(Installable(id, c, snapshot)) ==> (
        && (installed.Installed? <==> Recordable(c))
        && (undone.RolledBack? <==> Recordable(c) && old(Reversible(c, target, order, Edit(c.mod, order).value))))
      ensures old(budget) == 0 && !undone.RolledBack? ==> undone.RollbackRefused?
    {
      hide Edit, LedgerOf, Readable, Reversible, SafePath, Recordable;
      undone := RollbackRefused;
      if Installable(id, c, snapshot) { ReversibleMeansReadable(id, c, snapshot); }
      installed := Install(id, c, snapshot, None);
      if installed.Installed? {
        undone := Rollback(id);
      }
    }

    /**
     What outsiders may do between transactions: change what is installed, the rest of the mods folder, or the
     backups of any transaction.
     */
    method Disturb(target': Option<Tree>, order': Bytes, others': nat, id: string, backupOrder: Option<Bytes>, backupTarget: Option<Tree>)
      requires Valid()
      modifies `target, `order, `others, `transactions
      ensures Valid() && Now() == State(target', order') && others == others'
      ensures transactions == if id in old(transactions)
        then old(transactions)[id := old(transactions)[id].(backupOrder := backupOrder, backupTarget := backupTarget)]
        else old(transactions)
    {
      hide LedgerOf;
      target, order, others := target', order', others';
      if id in transactions {
        transactions := transactions[id := transactions[id].(backupOrder := backupOrder, backupTarget := backupTarget)];
      }
    }

    /**
     Any run of installs, rollbacks and disturbances, up to the first transaction that gets stuck. The steps that
     completed tell what is installed: each began where the last one ended, an install put its candidate and the
     edited load order in place, and a rollback gave back exactly what the install of the same receipt had found,
     however backups were disturbed in between. Nothing else moved anything.
     */
    method Run(commands: seq<Command>) returns (stuck: bool, ghost steps: seq<Step>)
      requires Valid() && transactions == map[] && completed == []
      modifies `target, `order, `others, `transactions, `budget, `completed
      ensures Valid()
      ensures Chained(old(Now()), steps) && AllSound(steps)
      ensures !stuck ==> Now() == LastState(old(Now()), steps)
      ensures old(budget) == 0 && MonotoneBounds() ==> !stuck
    {
      hide Valid, Edit, LedgerOf, MonotoneBounds, Rollbackable, Installable, AllSound, Recorded, ReceiptOf, Restores, Chained, LastState;
      stuck, steps := false, [];
      ghost var start := Now();
      NothingRecorded(start);
      for i := 0 to |commands|
        invariant Valid() && !stuck && budget <= old(budget)
        invariant Chained(start, steps) && AllSound(steps) && Recorded(transactions, steps)
        invariant Now() == LastState(start, steps)
      {
        ghost var was, before := Now(), transactions;
        match commands[i] {
          case DoInstall(id, c, snapshot, boundary) =>
            var outcome := Install(id, c, snapshot, boundary);
            if outcome.InstallStuck? { stuck := true; return; }
            if !outcome.InstallRefused? {
              ghost var step := Step(id, Put(c), was, Now());
              InstallIsRecorded(before, transactions, steps, step, outcome.Installed?);
              ChainExtends(start, steps, step);
              if outcome.Installed? { steps := steps + [step]; }
            }
          case DoRollback(id) =>
            var outcome := Rollback(id);
            if outcome.RollbackStuck? { stuck := true; return; }
            if outcome.RolledBack? {
              ghost var step := Step(id, TakeBack, was, Now());
              RollbackIsRecorded(before, transactions, steps, step);
              ChainExtends(start, steps, step);
              steps := steps + [step];
            } else {
              StillRecorded(before, transactions, steps);
            }
          case DoDisturb(id, target', order', others', backupOrder, backupTarget) =>
            Disturb(target', order', others', id, backupOrder, backupTarget);
            ghost var step := Step(id, Outside, was, Now());
            StillRecorded(before, transactions, steps);
            OutsideIsRecorded(transactions, steps, step);
            ChainExtends(start, steps, step);
            steps := steps + [step];
        }
      }
    }
  }

  datatype Command = DoInstall(id: string, candidate: Candidate, snapshot: Digest, boundary: Option<Boundary>)
                   | DoRollback(id: string)
                   | DoDisturb(id: string, target: Option<Tree>, order: Bytes, others: nat,
                               backupOrder: Option<Bytes>, backupTarget: Option<Tree>)

  // ----- histories -----

  /** The target folder and the load order. */
  datatype State = State(target: Option<Tree>, order: Bytes)
  datatype Kind = Put(candidate: Candidate) | TakeBack | Outside
  datatype Step = Step(id: string, kind: Kind, before: State, after: State)

  function LastState(start: State, steps: seq<Step>): State { if steps == [] then start else steps[|steps| - 1].after }

  /** Each step began where the last one ended. */
  predicate Chained(start: State, steps: seq<Step>) {
    forall i :: 0 <= i < |steps| ==> steps[i].before == LastState(start, steps[..i])
  }

  lemma ChainExtends(start: State, steps: seq<Step>, s: Step)
    requires Chained(start, steps) && s.before == LastState(start, steps)
    ensures Chained(start, steps + [s]) && LastState(start, steps + [s]) == s.after
  {
    hide LastState;
    var longer := steps + [s];
    forall i | 0 <= i < |longer| ensures longer[i].before == LastState(start, longer[..i]) {
      assert longer[..i] == steps[..i] && steps[..|steps|] == steps;
    }
    LastIs(start, steps, s);
  }

  lemma LastIs(start: State, steps: seq<Step>, s: Step)
    ensures LastState(start, steps + [s]) == s.after
  {
  }

  /** What an install puts in place. */
  predicate Installs(s: Step) {
    s.kind.Put? ==> s.after.target == Some(s.kind.candidate.source) && Ok(s.after.order) == Edit(s.kind.candidate.mod, s.before.order)
  }

  /** Step `j` takes back step `i`: it starts from what the install left and ends in what the install found. */
  predicate TakesBack(steps: seq<Step>, i: nat, j: nat)
    requires i < |steps| && j < |steps|
  {
    i < j && steps[i].kind.Put? && steps[i].id == steps[j].id
    && steps[j].before == steps[i].after && steps[j].after == steps[i].before
  }

  /** No transaction is installed twice or taken back twice, and nothing is taken back that was not installed. */
  ghost predicate AllSound(steps: seq<Step>) {
    && (forall i :: 0 <= i < |steps| ==> Installs(steps[i]))
    && (forall i, j :: 0 <= i < j < |steps| && steps[i].id == steps[j].id ==>
         !(steps[i].kind.Put? && steps[j].kind.Put?) && !(steps[i].kind.TakeBack? && steps[j].kind.TakeBack?))
    && (forall j :: 0 <= j < |steps| && steps[j].kind.TakeBack? ==> exists i :: 0 <= i < |steps| && TakesBack(steps, i, j))
  }

  /** What the transaction folders know of the steps: every install has its receipt, and every receipt its install. */
  ghost predicate Recorded(transactions: map<string, Transaction>, steps: seq<Step>) {
    && (forall i :: 0 <= i < |steps| && steps[i].kind.Put? ==> RecordedPut(transactions, steps[i]))
    && (forall i :: 0 <= i < |steps| && steps[i].kind.TakeBack? ==> steps[i].id in transactions && transactions[steps[i].id].rolledBack)
    && (forall id :: id in transactions && transactions[id].receipt.Some? ==> PutUnder(steps, id))
  }

  predicate RecordedPut(transactions: map<string, Transaction>, s: Step)
    requires s.kind.Put?
  {
    && Installs(s) && s.id in transactions
    && transactions[s.id].receipt == Some(ReceiptOf(s.kind.candidate, s.before.target, s.before.order, s.after.order))
  }

  predicate PutUnder(steps: seq<Step>, id: string) { exists i :: 0 <= i < |steps| && steps[i].kind.Put? && steps[i].id == id }

  lemma NothingRecorded(start: State)
    ensures Recorded(map[], []) && AllSound([]) && Chained(start, []) && LastState(start, []) == start
  {
  }

  lemma PutStays(steps: seq<Step>, s: Step, id: string)
    ensures PutUnder(steps + [s], id) <==> PutUnder(steps, id) || (s.kind.Put? && s.id == id)
  {
    var longer := steps + [s];
    if PutUnder(steps, id) {
      var i :| 0 <= i < |steps| && steps[i].kind.Put? && steps[i].id == id;
      assert longer[i].kind.Put? && longer[i].id == id;
    }
    assert longer[|steps|] == s;
  }

  lemma TakesBackStays(steps: seq<Step>, s: Step, i: nat, j: nat)
    requires i < |steps| && j < |steps|
    ensures TakesBack(steps + [s], i, j) <==> TakesBack(steps, i, j)
  {
  }

  /** One more step, not an install or a take-back under an id that already has one. */
  lemma SoundExtends(steps: seq<Step>, s: Step)
    requires AllSound(steps) && Installs(s)
    requires forall i :: 0 <= i < |steps| && steps[i].id == s.id ==>
      !(steps[i].kind.Put? && s.kind.Put?) && !(steps[i].kind.TakeBack? && s.kind.TakeBack?)
    requires s.kind.TakeBack? ==> exists i :: 0 <= i < |steps| && TakesBack(steps + [s], i, |steps|)
    ensures AllSound(steps + [s])
  {
    hide Installs, TakesBack;
    var longer := steps + [s];
    forall j | 0 <= j < |longer| && longer[j].kind.TakeBack? ensures exists i :: 0 <= i < |longer| && TakesBack(longer, i, j) {
      if j < |steps| {
        var i :| 0 <= i < |steps| && TakesBack(steps, i, j);
        TakesBackStays(steps, s, i, j);
        assert TakesBack(longer, i, j);
      }
    }
  }

  lemma InstallIsRecorded(before: map<string, Transaction>, now: map<string, Transaction>, steps: seq<Step>, s: Step, installed: bool)
    requires Recorded(before, steps) && AllSound(steps) && s.kind.Put?
    requires s.id !in before && s.id in now && now == before[s.id := now[s.id]]
    requires if installed then RecordedPut(now, s) else now[s.id].receipt.None?
    ensures installed ==> Recorded(now, steps + [s]) && AllSound(steps + [s])
    ensures !installed ==> Recorded(now, steps)
  {
    hide Installs, PutUnder, ReceiptOf, AllSound;
    forall i | 0 <= i < |steps| && steps[i].kind.Put? ensures RecordedPut(now, steps[i]) && steps[i].id != s.id {
      assert RecordedPut(before, steps[i]);
    }
    if installed {
      SoundExtends(steps, s);
      forall id { PutStays(steps, s, id); }
    }
  }

  /** A completed rollback, in terms of the receipt: from the installed state to the original one. */
  predicate Restores(t: Transaction, was: State, now: State) {
    && t.receipt.Some? && !t.rolledBack
    && was.target.Some? && TreeDigest(was.target.value) == t.receipt.value.installedDigest
    && FileDigest(was.order) == t.receipt.value.orderAfter && FileDigest(now.order) == t.receipt.value.orderBefore
    && t.receipt.value.originalDigest == if now.target.Some? then Some(TreeDigest(now.target.value)) else None
  }

  lemma RollbackIsRecorded(before: map<string, Transaction>, now: map<string, Transaction>, steps: seq<Step>, s: Step)
    requires Recorded(before, steps) && AllSound(steps) && s.kind.TakeBack?
    requires s.id in before && s.id in now && now == before[s.id := before[s.id].(work := now[s.id].work, rolledBack := true)]
    requires Restores(before[s.id], s.before, s.after)
    ensures Recorded(now, steps + [s]) && AllSound(steps + [s])
  {
    hide AllSound, ReceiptOf, LedgerOf, PutUnder, TakesBack, RecordedPut, Edit;
    assert before[s.id].receipt.Some? && !before[s.id].rolledBack;
    StillRecorded(before, now, steps);
    var i := TakenBack(before, steps, s);
    SoundExtends(steps, s);
    hide Restores;
    forall id { PutStays(steps, s, id); }
  }

  /** The install that a completed rollback takes back. */
  lemma TakenBack(before: map<string, Transaction>, steps: seq<Step>, s: Step) returns (i: nat)
    requires Recorded(before, steps) && s.kind.TakeBack? && s.id in before && Restores(before[s.id], s.before, s.after)
    ensures i < |steps| && TakesBack(steps + [s], i, |steps|)
  {
    assert PutUnder(steps, s.id);
    i :| 0 <= i < |steps| && steps[i].kind.Put? && steps[i].id == s.id;
    assert RecordedPut(before, steps[i]);
    hide ReceiptOf, LedgerOf, Recorded, Restores;
    RestoresWhatWasFound(before[s.id], steps[i], s);
  }

  /** The receipt's digests pin both states of the install. */
  lemma RestoresWhatWasFound(t: Transaction, put: Step, back: Step)
    requires put.kind.Put? && Installs(put) && Restores(t, back.before, back.after)
    requires t.receipt == Some(ReceiptOf(put.kind.candidate, put.before.target, put.before.order, put.after.order))
    ensures back.before == put.after && back.after == put.before
  {
    hide LedgerOf, Edit;
  }

  /** A change of work, completion or backups keeps what is recorded. */
  lemma StillRecorded(before: map<string, Transaction>, now: map<string, Transaction>, steps: seq<Step>)
    requires Recorded(before, steps)
    requires forall id :: id in now <==> id in before
    requires forall id :: id in before ==> now[id].receipt == before[id].receipt && (before[id].rolledBack ==> now[id].rolledBack)
    ensures Recorded(now, steps)
  {
    hide Installs, PutUnder, ReceiptOf;
    forall i | 0 <= i < |steps| && steps[i].kind.Put? ensures RecordedPut(now, steps[i]) { assert RecordedPut(before, steps[i]); }
  }

  lemma OutsideIsRecorded(transactions: map<string, Transaction>, steps: seq<Step>, s: Step)
    requires Recorded(transactions, steps) && AllSound(steps) && s.kind.Outside?
    ensures Recorded(transactions, steps + [s]) && AllSound(steps + [s])
  {
    hide PutUnder, ReceiptOf, AllSound, RecordedPut;
    SoundExtends(steps, s);
    forall id { PutStays(steps, s, id); }
  }

  lemma EditIsVerified(m: Mod, original: Bytes)
    ensures Edit(m, original).Ok? ==> Verify(m, Edit(m, original).value).Ok?
  {
  }
}
