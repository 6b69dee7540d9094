/** Installs that cannot be rolled back, or not even be carried out, without any fault or drift. */
module DeploymentProofs {
  import opened Wrappers
  import opened ModOrder
  import opened ModOrderProofs
  import opened Deployment

  const ID := 109

  /** A load order that holds the mod and nothing else stays as it is. */
  lemma OneLineStays(fold: int -> seq<int>)
    requires ValidMod(Mod([ID], fold))
    ensures Edit(Mod([ID], fold), [ID]) == Ok([ID])
  {
    var m, file := Mod([ID], fold), [ID];
    AsciiDecodes(file);
    assert BOM[0] != file[0];
    assert file[0..] == file && PayloadOf(file) == file;
    assert file[1..] == [] && file[..1] == file;
    assert Lines(file, false) == [file];
    StripId(m);
    assert ChunkNames(m, file);
    hide ChunkNames, Decode, Lines, Edit, PayloadOf, Hits, Entries;
    assert Naming(m, [file]) == 1 by { assert [file][1..] == []; }
    UnchangedWhenOne(m, file);
  }

  lemma StripId(m: Mod)
    requires m.id == [ID]
    ensures Names(m, Strip(TextOf([ID])))
  {
    AsciiDecodes([ID]);
    assert Strip([ID]) == [ID];
  }

  function OldTarget(): Tree { map["a:b" := File([])] }

  function NewTarget(): Tree { map["m" := File([])] }

  /** The old target's file has a name that no receipt may hold, and no install asks about it. */
  lemma OldNameIsUnsafe()
    ensures !SafePath("a:b") && SafePath("m")
  {
    UnsafeAt("a:b", 1);
    OneLetterIsSafe();
  }

  lemma UnsafeAt(s: string, i: nat)
    requires i < |s| && s[i] in UNSAFE && '/' !in s
    ensures !SafePath(s)
  {
    BeforeAbsent(s, '/');
  }

  lemma {:induction false} BeforeAbsent(s: string, c: char)
    requires c !in s
    ensures Before(s, c) == s
  {
    if s != [] {
      assert s == [s[0]] + s[1..];
      BeforeAbsent(s[1..], c);
    }
  }

  lemma OneLetterIsSafe()
    ensures SafePath("m")
  {
    BeforeAbsent("m", '/');
    BeforeAbsent("m", '.');
    assert Upper("m") == "M" && !Reserved("M");
    assert "m"[0] !in UNSAFE;
    assert SafeComponent("m");
  }

  const MANIFEST := Artifact(false, 0, FileDigest([]))

  /** A candidate with one file, and perhaps native components. */
  function OneFile(native: map<Path, Artifact>, fold: int -> seq<int>): Candidate {
    Candidate(NewTarget(), native["m" := MANIFEST], Mod([ID], fold))
  }

  /** Such a candidate passes the preflight of a machine that holds the load order, an old target or none, and room. */
  lemma OneFileInstalls(machine: Machine, native: map<Path, Artifact>, fold: int -> seq<int>)
    requires ValidMod(Mod([ID], fold)) && forall p :: p in native ==> native[p].native
    requires machine.transactions == map[] && machine.order == [ID] && machine.Listed()
    requires forall tree :: machine.fits(tree)
    ensures machine.Installable("t", OneFile(native, fold), FileDigest([ID])) && machine.MonotoneBounds()
    ensures Edit(Mod([ID], fold), [ID]) == Ok([ID])
  {
    hide *;
    OneFileIsRegistered(native, fold);
    OneFileHasId(native, fold);
    OneLineStays(fold);
    OldNameIsUnsafe();
    InstallableMeans(machine, OneFile(native, fold));
    AllFit(machine);
  }

  lemma AllFit(machine: Machine)
    requires forall tree :: machine.fits(tree)
    ensures machine.MonotoneBounds()
  {
  }

  lemma InstallableMeans(machine: Machine, c: Candidate)
    requires machine.transactions == map[] && machine.order == [ID] && machine.Listed()
    requires forall tree :: machine.fits(tree)
    requires c.mod.id == [ID] && Edit(c.mod, [ID]) == Ok([ID])
    requires c.Registered() == LedgerOf(c.source) == map["m" := (0, FileDigest([]))] && SafePath("m")
    ensures machine.Installable("t", c, FileDigest([ID]))
  {
    hide Edit, SafePath, LedgerOf;
    assert "m" in c.Registered();
  }

  lemma OneFileIsRegistered(native: map<Path, Artifact>, fold: int -> seq<int>)
    requires forall p :: p in native ==> native[p].native
    ensures var ledger: Ledger := map["m" := (0, FileDigest([]))];
      OneFile(native, fold).Registered() == ledger && LedgerOf(OneFile(native, fold).source) == ledger
  {
  }

  lemma OneFileHasId(native: map<Path, Artifact>, fold: int -> seq<int>)
    ensures OneFile(native, fold).mod == Mod([ID], fold)
  {
  }

  lemma Nameless()
    ensures NamesNothing(".") && !NamesNothing("m") && !NamesNothing("x.dll")
  {
    assert "x.dll"[0] == 'x';
  }

  /**
   Without faults, drift or damage: the install succeeds, and the rollback refuses its receipt, because the folder
   it replaced held a file called a:b, as some file systems allow.
   */
  method UnreadableReceipt(fold: int -> seq<int>) returns (installed: InstallOutcome, undone: RollbackOutcome)
    requires ValidMod(Mod([ID], fold))
    ensures installed.Installed? && undone.RollbackRefused?
  {
    var machine := new Machine(_ => true, _ => 0, Some(OldTarget()), [ID], 1, 0);
    OneFileInstalls(machine, map[], fold);
    OldNameIsUnsafe();
    Nameless();
    hide Edit, SafePath, NamesNothing;
    assert "a:b" in OldTarget() && OldTarget()["a:b"].File?;
    installed, undone := machine.InstallThenRollback("t", OneFile(map[], fold), FileDigest([ID]));
  }

  /** The same into an empty place, because a native component is registered with one byte more than 16 GiB. */
  method OversizedComponent(fold: int -> seq<int>) returns (installed: InstallOutcome, undone: RollbackOutcome)
    requires ValidMod(Mod([ID], fold))
    ensures installed.Installed? && undone.RollbackRefused?
  {
    var native := map["x.dll" := Artifact(true, MAX_FILE_BYTES + 1, FileDigest([]))];
    var machine := new Machine(_ => true, _ => 0, None, [ID], 1, 0);
    OneFileInstalls(machine, native, fold);
    Nameless();
    hide Edit, SafePath, NamesNothing;
    assert "x.dll" in OneFile(native, fold).artifacts;
    installed, undone := machine.InstallThenRollback("t", OneFile(native, fold), FileDigest([ID]));
  }

  /** The same into a mods folder with 4096 other entries: the installed folder is one too many. */
  method FullFolder(fold: int -> seq<int>) returns (installed: InstallOutcome, undone: RollbackOutcome)
    requires ValidMod(Mod([ID], fold))
    ensures installed.Installed? && undone.RollbackRefused?
  {
    var machine := new Machine(_ => true, _ => 0, None, [ID], MAX_FOLDER_ENTRIES, 0);
    OneFileInstalls(machine, map[], fold);
    Nameless();
    hide Edit, SafePath, NamesNothing;
    installed, undone := machine.InstallThenRollback("t", OneFile(map[], fold), FileDigest([ID]));
  }

  /** A native component registered under a single dot: everything is installed, and then put back. */
  method NamelessComponent(fold: int -> seq<int>) returns (outcome: InstallOutcome, machine: Machine)
    requires ValidMod(Mod([ID], fold))
    ensures fresh(machine) && outcome.InstallUndone? && machine.target.None? && machine.order == [ID]
  {
    var native := map["." := Artifact(true, 0, FileDigest([]))];
    machine := new Machine(_ => true, _ => 0, None, [ID], 1, 0);
    OneFileInstalls(machine, native, fold);
    Nameless();
    hide Edit, SafePath, NamesNothing;
    assert "." in OneFile(native, fold).artifacts;
    outcome := machine.Install("t", OneFile(native, fold), FileDigest([ID]), None);
  }
}
