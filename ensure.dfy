/**
 * The vendor synchronizer of the `ensure` command: for every import of the
 * target it decides whether to skip it, report it, fetch it and copy it
 * from the global package tree into the project's vendor directory; the
 * first error ends the run.
 */
module Ensure {
  import opened Wrappers
  import opened Paths
  import opened Files
  import opened Manifest
  import opened Copier

  /** What isDirExist answers about a path. */
  datatype DirProbe = Present | Absent | ProbeError(reason: string)

  /** What `go get <name>` does: adds (or overwrites) entries, or fails. */
  datatype GetResult = Got(added: FS) | GetError(reason: string)

  /** The observable steps of a run, in order. */
  datatype Event =
    | Probed(path: Path, answer: DirProbe)    // isDirExist
    | Copying(name: string)                   // fmt.Println("copying", imp)
    | GoGet(name: string)                     // the `go get` command
    | CopyTree(src: Path, dest: Path)         // CopyDir

  /** The resolved inputs of the command: vendor dir, GOPATH and the two flags. */
  datatype Config = Config(vendorDir: Path, goPath: Path, dry: bool, get: bool, now: int)

  /** The code the synchronizer calls but that is not modelled here. */
  datatype Collaborators = Collaborators(
    isGoRepoPath: string -> bool,
    normalizeName: string -> string,
    isDirExist: (FS, Path) -> DirProbe,
    goGet: (FS, string) -> GetResult)

  /** The error a run ends with, the filesystem after it and what it did. */
  datatype Run = Run(err: Option<Error>, fs: FS, log: seq<Event>)

  /**
   * Imports the loop never looks at: standard library, "C", and relative
   * paths starting with "./" or "../" (a bare "." or ".." is not skipped).
   */
  predicate Skipped(env: Collaborators, imp: string)
    ensures Skipped(env, imp) ==> env.isGoRepoPath(imp) || imp == "C" || (|imp| > 1 && imp[0] == '.')
    ensures !env.isGoRepoPath(imp) && (imp == "." || imp == "..") ==> !Skipped(env, imp)
  {
    assert imp == ".." ==> !HasPrefix(imp, "./") by {
      if imp == ".." { assert imp[1] != "./"[1]; }
    }
    env.isGoRepoPath(imp) || imp == "C" || HasPrefix(imp, "../") || HasPrefix(imp, "./")
  }

  /** vendorDir/NormalizeName(imp): for a clean name, the vendor dir extended by its pieces. */
  function VendorPath(cfg: Config, env: Collaborators, imp: string): (r: Path)
    ensures ValidNames(Split(env.normalizeName(imp))) ==> r == cfg.vendorDir + Split(env.normalizeName(imp))
  {
    JoinPath(cfg.vendorDir, env.normalizeName(imp))
  }

  /** GOPATH/src/NormalizeName(imp): for a clean name, GOPATH/src extended by its pieces. */
  function SourcePath(cfg: Config, env: Collaborators, imp: string): (r: Path)
    ensures ValidNames(Split(env.normalizeName(imp))) ==> r == cfg.goPath + ["src"] + Split(env.normalizeName(imp))
  {
    JoinPath(cfg.goPath + ["src"], env.normalizeName(imp))
  }

  predicate Writes(e: Event) {
    e.GoGet? || e.CopyTree?
  }

  /** Whether the import is reported as "copying": it is not skipped and its vendor dir is absent. */
  predicate Reports(fs: FS, imp: string, cfg: Config, env: Collaborators) {
    !Skipped(env, imp) && env.isDirExist(fs, VendorPath(cfg, env, imp)) == Absent
  }

  /**
   * Whether the import reaches `go get`: it is not skipped, the run is not
   * dry, the get flag is set, and neither the vendor dir nor the source dir
   * is there.
   */
  predicate Fetches(fs: FS, imp: string, cfg: Config, env: Collaborators) {
    && !Skipped(env, imp) && !cfg.dry && cfg.get
    && env.isDirExist(fs, VendorPath(cfg, env, imp)) == Absent
    && env.isDirExist(fs, SourcePath(cfg, env, imp)) == Absent
  }

  /** Whether the import reaches CopyDir: nothing before it failed or ended the round. */
  predicate Copies(fs: FS, imp: string, cfg: Config, env: Collaborators) {
    && !Skipped(env, imp) && !cfg.dry
    && env.isDirExist(fs, VendorPath(cfg, env, imp)) == Absent
    && !env.isDirExist(fs, SourcePath(cfg, env, imp)).ProbeError?
    && !(Fetches(fs, imp, cfg, env) && env.goGet(fs, env.normalizeName(imp)).GetError?)
  }

  /** The filesystem CopyDir copies from: with what `go get` added, when it ran. */
  function CopyFrom(fs: FS, imp: string, cfg: Config, env: Collaborators): FS {
    var got := env.goGet(fs, env.normalizeName(imp));
    if Fetches(fs, imp, cfg, env) && got.Got? then fs + got.added else fs
  }

  /**
   * The second half of the loop body, for an import whose vendor dir is
   * absent outside a dry run: probe the source, fetch it when it is absent
   * and `get` is set, then copy it.
   */
  function FetchAndCopy(fs: FS, imp: string, cfg: Config, env: Collaborators): (r: Run)
    ensures var probe := env.isDirExist(fs, SourcePath(cfg, env, imp));
            probe.ProbeError? ==> r == Run(Some(ProbeFailed(probe.reason)), fs, [Probed(SourcePath(cfg, env, imp), probe)])
    ensures var fetch := cfg.get && env.isDirExist(fs, SourcePath(cfg, env, imp)) == Absent;
            && (fetch ==> GoGet(env.normalizeName(imp)) in r.log)
            && ((exists e :: e in r.log && e.GoGet?) <==> fetch)
    ensures var got := env.goGet(fs, env.normalizeName(imp));
            cfg.get && env.isDirExist(fs, SourcePath(cfg, env, imp)) == Absent && got.GetError? ==>
              r.err == Some(GetFailed(got.reason)) && r.fs == fs && forall e :: e in r.log ==> !e.CopyTree?
    ensures var got := env.goGet(fs, env.normalizeName(imp));
            var probe := env.isDirExist(fs, SourcePath(cfg, env, imp));
            var added := if cfg.get && probe == Absent && got.Got? then got.added else map[];
            !probe.ProbeError? && !(cfg.get && probe == Absent && got.GetError?) ==>
              && CopyTree(SourcePath(cfg, env, imp), VendorPath(cfg, env, imp)) in r.log
              && Outcome(r.err, r.fs) == CopyDir(fs + added, SourcePath(cfg, env, imp), VendorPath(cfg, env, imp), [IsGitPath], cfg.now)
    ensures forall e :: e in r.log ==> !e.Copying?
  {
    var name := env.normalizeName(imp);
    var p := VendorPath(cfg, env, imp);
    var srcDir := SourcePath(cfg, env, imp);
    match env.isDirExist(fs, srcDir)
    case ProbeError(reason) => Run(Some(ProbeFailed(reason)), fs, [Probed(srcDir, ProbeError(reason))])
    case _ =>
      var log := [Probed(srcDir, env.isDirExist(fs, srcDir))];
      if env.isDirExist(fs, srcDir) == Absent && cfg.get then
        match env.goGet(fs, name)
        case GetError(reason) =>
          Run(Some(GetFailed(reason)), fs, [Probed(srcDir, Absent), GoGet(name)])
        case Got(added) =>
          var o := CopyDir(fs + added, srcDir, p, [IsGitPath], cfg.now);
          Run(o.err, o.fs, [Probed(srcDir, Absent), GoGet(name), CopyTree(srcDir, p)])
      else
        assert fs + map[] == fs;
        var o := CopyDir(fs, srcDir, p, [IsGitPath], cfg.now);
        Run(o.err, o.fs, log + [CopyTree(srcDir, p)])
  }

  /** The body of the loop, for one import. */
  function SyncImport(fs: FS, imp: string, cfg: Config, env: Collaborators): (r: Run)
    ensures Skipped(env, imp) ==> r == Run(None, fs, [])
    ensures !Skipped(env, imp) && env.isDirExist(fs, VendorPath(cfg, env, imp)) == Present ==>
              r == Run(None, fs, [Probed(VendorPath(cfg, env, imp), Present)])
    ensures var probe := env.isDirExist(fs, VendorPath(cfg, env, imp));
            !Skipped(env, imp) && probe.ProbeError? ==> r.err == Some(ProbeFailed(probe.reason)) && r.fs == fs
    ensures var probe := env.isDirExist(fs, SourcePath(cfg, env, imp));
            && !Skipped(env, imp) && !cfg.dry && env.isDirExist(fs, VendorPath(cfg, env, imp)) == Absent
            && probe.ProbeError? ==>
              r.err == Some(ProbeFailed(probe.reason)) && r.fs == fs
    ensures cfg.dry ==> r.fs == fs && forall e :: e in r.log ==> !Writes(e)
    ensures (exists e :: e in r.log && e.GoGet?) <==> Fetches(fs, imp, cfg, env)
    ensures Fetches(fs, imp, cfg, env) ==> GoGet(env.normalizeName(imp)) in r.log
    ensures var got := env.goGet(fs, env.normalizeName(imp));
            Fetches(fs, imp, cfg, env) && got.GetError? ==>
              r.err == Some(GetFailed(got.reason)) && r.fs == fs && forall e :: e in r.log ==> !e.CopyTree?
    ensures Copies(fs, imp, cfg, env) ==>
              && CopyTree(SourcePath(cfg, env, imp), VendorPath(cfg, env, imp)) in r.log
              && Outcome(r.err, r.fs) == CopyDir(CopyFrom(fs, imp, cfg, env), SourcePath(cfg, env, imp),
                                                 VendorPath(cfg, env, imp), [IsGitPath], cfg.now)
    ensures !Copies(fs, imp, cfg, env) ==> forall e :: e in r.log ==> !e.CopyTree?
  {
    if Skipped(env, imp) then Run(None, fs, [])
    else
      var name := env.normalizeName(imp);
      var p := VendorPath(cfg, env, imp);
      match env.isDirExist(fs, p)
      case ProbeError(reason) => Run(Some(ProbeFailed(reason)), fs, [Probed(p, ProbeError(reason))])
      case Present => Run(None, fs, [Probed(p, Present)])
      case Absent =>
        var log := [Probed(p, Absent), Copying(name)];
        if cfg.dry then Run(None, fs, log)
        else
          var t := FetchAndCopy(fs, imp, cfg, env);
          Run(t.err, t.fs, log + t.log)
  }

  /**
   * The "copying" report: it is made exactly for an import that is not
   * skipped and has no vendor directory yet, it names that import, and in a
   * dry run it is the last thing the import does.
   */
  lemma SyncImportReports(fs: FS, imp: string, cfg: Config, env: Collaborators)
    ensures var r := SyncImport(fs, imp, cfg, env);
            && (Reports(fs, imp, cfg, env) ==> Copying(env.normalizeName(imp)) in r.log)
            && ((exists e :: e in r.log && e.Copying?) <==> Reports(fs, imp, cfg, env))
            && (forall e :: e in r.log && e.Copying? ==> e == Copying(env.normalizeName(imp)))
            && (Reports(fs, imp, cfg, env) && cfg.dry ==>
                  r == Run(None, fs, [Probed(VendorPath(cfg, env, imp), Absent), Copying(env.normalizeName(imp))]))
  {
  }

  /** The loop over the imports, stopping at the first error. */
  function SyncAll(fs: FS, imports: seq<string>, cfg: Config, env: Collaborators): (r: Run)
    ensures cfg.dry ==> r.fs == fs && forall e :: e in r.log ==> !Writes(e)
    decreases |imports|
  {
    if imports == [] then Run(None, fs, [])
    else
      var s := SyncImport(fs, imports[0], cfg, env);
      if s.err.Some? then s
      else
        var r := SyncAll(s.fs, imports[1..], cfg, env);
        Run(r.err, r.fs, s.log + r.log)
  }

  /** runEnsure from the listing of the imports on: a listing error ends it at once. */
  function RunEnsure(fs: FS, listed: Result<seq<string>, string>, cfg: Config, env: Collaborators): (r: Run)
    ensures listed.Failure? ==> r == Run(Some(ListImportsFailed(listed.error)), fs, [])
  {
    match listed
    case Failure(reason) => Run(Some(ListImportsFailed(reason)), fs, [])
    case Success(imports) => SyncAll(fs, imports, cfg, env)
  }

  // ---------------------------------------------------------------------
  // Lemmas

  /** No import removes an entry: go get only adds, CopyDir only adds. */
  lemma SyncImportGrows(fs: FS, imp: string, cfg: Config, env: Collaborators)
    ensures fs.Keys <= SyncImport(fs, imp, cfg, env).fs.Keys
  {
    var p := VendorPath(cfg, env, imp);
    var srcDir := SourcePath(cfg, env, imp);
    var name := env.normalizeName(imp);
    if !Skipped(env, imp) && env.isDirExist(fs, p) == Absent && !cfg.dry
       && !env.isDirExist(fs, srcDir).ProbeError? {
      if env.isDirExist(fs, srcDir) == Absent && cfg.get {
        if env.goGet(fs, name).Got? {
          CopyDirGrows(fs + env.goGet(fs, name).added, srcDir, p, [IsGitPath], cfg.now);
        }
      } else {
        CopyDirGrows(fs, srcDir, p, [IsGitPath], cfg.now);
      }
    }
  }

  /** A successful import leaves its vendor directory behind, unless it was already there or the run is dry. */
  lemma SyncImportDone(fs: FS, imp: string, cfg: Config, env: Collaborators)
    requires !Skipped(env, imp) && SyncImport(fs, imp, cfg, env).err.None?
    ensures var r := SyncImport(fs, imp, cfg, env);
            || cfg.dry
            || Probed(VendorPath(cfg, env, imp), Present) in r.log
            || VendorPath(cfg, env, imp) in r.fs
  {
    var p := VendorPath(cfg, env, imp);
    var srcDir := SourcePath(cfg, env, imp);
    var name := env.normalizeName(imp);
    if env.isDirExist(fs, p) == Absent && !cfg.dry {
      var fs1 := if env.isDirExist(fs, srcDir) == Absent && cfg.get then fs + env.goGet(fs, name).added else fs;
      assert CopyDir(fs1, srcDir, p, [IsGitPath], cfg.now).err.None?;
      CopyDirCreatesDestFirst(fs1, srcDir, p, [IsGitPath], cfg.now);
    }
  }

  /** The run never removes an entry. */
  lemma {:induction false} SyncAllGrows(fs: FS, imports: seq<string>, cfg: Config, env: Collaborators)
    ensures fs.Keys <= SyncAll(fs, imports, cfg, env).fs.Keys
    decreases |imports|
  {
    if imports != [] {
      var s := SyncImport(fs, imports[0], cfg, env);
      SyncImportGrows(fs, imports[0], cfg, env);
      if s.err.None? {
        SyncAllGrows(s.fs, imports[1..], cfg, env);
      }
    }
  }

  /**
   * A dry run reports exactly the imports that are not skipped and have no
   * vendor dir: every "copying" line names such an import, and when the run
   * succeeds, every such import has its line.
   */
  lemma {:induction false} SyncAllDryReports(fs: FS, imports: seq<string>, cfg: Config, env: Collaborators)
    requires cfg.dry
    ensures var r := SyncAll(fs, imports, cfg, env);
            forall e :: e in r.log && e.Copying? ==>
              exists imp :: imp in imports && Reports(fs, imp, cfg, env) && e == Copying(env.normalizeName(imp))
    ensures var r := SyncAll(fs, imports, cfg, env);
            r.err.None? ==>
              forall imp :: imp in imports && Reports(fs, imp, cfg, env) ==> Copying(env.normalizeName(imp)) in r.log
    decreases |imports|
  {
    if imports != [] {
      var s := SyncImport(fs, imports[0], cfg, env);
      SyncImportReports(fs, imports[0], cfg, env);
      assert forall imp :: imp in imports ==> imp == imports[0] || imp in imports[1..] by {
        assert imports == [imports[0]] + imports[1..];
      }
      if s.err.None? {
        SyncAllDryReports(s.fs, imports[1..], cfg, env);
      }
    }
  }

  /** The run ends with the error of import i, after imports[..i] all succeeded. */
  ghost predicate FailsAt(fs: FS, imports: seq<string>, cfg: Config, env: Collaborators, i: int) {
    && 0 <= i < |imports|
    && var pre := SyncAll(fs, imports[..i], cfg, env);
       var s := SyncImport(pre.fs, imports[i], cfg, env);
       && pre.err.None?
       && s.err.Some?
       && SyncAll(fs, imports, cfg, env) == Run(s.err, s.fs, pre.log + s.log)
       && pre.fs.Keys <= s.fs.Keys
  }

  /** Unfolding the run over a prefix after a successful first import. */
  lemma SyncAllPrefix(fs: FS, imports: seq<string>, cfg: Config, env: Collaborators, j: nat)
    requires j < |imports| && SyncImport(fs, imports[0], cfg, env).err.None?
    ensures var s := SyncImport(fs, imports[0], cfg, env);
            var pre := SyncAll(s.fs, imports[1..][..j], cfg, env);
            SyncAll(fs, imports[..j + 1], cfg, env) == Run(pre.err, pre.fs, s.log + pre.log)
  {
    var xs := imports[..j + 1];
    assert xs[0] == imports[0];
    assert xs[1..] == imports[1..][..j];
    SyncAllStep(fs, xs, cfg, env);
  }

  /** One step of the run after a successful first import. */
  lemma SyncAllStep(fs: FS, imports: seq<string>, cfg: Config, env: Collaborators)
    requires imports != [] && SyncImport(fs, imports[0], cfg, env).err.None?
    ensures var s := SyncImport(fs, imports[0], cfg, env);
            var r := SyncAll(s.fs, imports[1..], cfg, env);
            SyncAll(fs, imports, cfg, env) == Run(r.err, r.fs, s.log + r.log)
  {
  }

  /**
   * Fail-fast: an error comes from one import i; imports before it all
   * succeeded, imports after it are never processed, and nothing the
   * earlier imports created is lost.
   */
  lemma {:induction false} SyncAllFailFast(fs: FS, imports: seq<string>, cfg: Config, env: Collaborators)
    requires SyncAll(fs, imports, cfg, env).err.Some?
    ensures exists i :: FailsAt(fs, imports, cfg, env, i)
    decreases |imports|
  {
    var s := SyncImport(fs, imports[0], cfg, env);
    if s.err.Some? {
      FailsFirst(fs, imports, cfg, env);
    } else {
      var rest := imports[1..];
      SyncAllFailFast(s.fs, rest, cfg, env);
      var j :| FailsAt(s.fs, rest, cfg, env, j);
      FailsLater(fs, imports, cfg, env, j);
    }
  }

  lemma FailsFirst(fs: FS, imports: seq<string>, cfg: Config, env: Collaborators)
    requires imports != [] && SyncImport(fs, imports[0], cfg, env).err.Some?
    ensures FailsAt(fs, imports, cfg, env, 0)
  {
    assert imports[..0] == [];
    SyncImportGrows(fs, imports[0], cfg, env);
    assert [] + SyncImport(fs, imports[0], cfg, env).log == SyncImport(fs, imports[0], cfg, env).log;
  }

  lemma FailsLater(fs: FS, imports: seq<string>, cfg: Config, env: Collaborators, j: int)
    requires imports != [] && SyncImport(fs, imports[0], cfg, env).err.None?
    requires FailsAt(SyncImport(fs, imports[0], cfg, env).fs, imports[1..], cfg, env, j)
    ensures FailsAt(fs, imports, cfg, env, j + 1)
  {
    var s := SyncImport(fs, imports[0], cfg, env);
    var rest := imports[1..];
    var pre := SyncAll(s.fs, rest[..j], cfg, env);
    var t := SyncImport(pre.fs, rest[j], cfg, env);
    SyncAllPrefix(fs, imports, cfg, env, j);
    SyncAllCons(fs, imports, cfg, env, t, pre.log);
    assert imports[j + 1] == rest[j];
  }

  lemma SyncAllCons(fs: FS, imports: seq<string>, cfg: Config, env: Collaborators, t: Run, mid: seq<Event>)
    requires imports != [] && SyncImport(fs, imports[0], cfg, env).err.None?
    requires SyncAll(SyncImport(fs, imports[0], cfg, env).fs, imports[1..], cfg, env) == Run(t.err, t.fs, mid + t.log)
    ensures SyncAll(fs, imports, cfg, env) == Run(t.err, t.fs, (SyncImport(fs, imports[0], cfg, env).log + mid) + t.log)
  {
    var s := SyncImport(fs, imports[0], cfg, env);
    assert s.log + (mid + t.log) == (s.log + mid) + t.log;
  }

  /** Success: every import that is not skipped has its vendor directory, or the run was dry. */
  lemma {:induction false} SyncAllSuccess(fs: FS, imports: seq<string>, cfg: Config, env: Collaborators)
    requires SyncAll(fs, imports, cfg, env).err.None?
    ensures var r := SyncAll(fs, imports, cfg, env);
            forall k :: 0 <= k < |imports| && !Skipped(env, imports[k]) ==>
              || cfg.dry
              || Probed(VendorPath(cfg, env, imports[k]), Present) in r.log
              || VendorPath(cfg, env, imports[k]) in r.fs
    decreases |imports|
  {
    if imports != [] {
      var r := SyncAll(fs, imports, cfg, env);
      var s := SyncImport(fs, imports[0], cfg, env);
      var rest := SyncAll(s.fs, imports[1..], cfg, env);
      assert r == Run(rest.err, rest.fs, s.log + rest.log);
      SyncAllSuccess(s.fs, imports[1..], cfg, env);
      SyncAllGrows(s.fs, imports[1..], cfg, env);
      forall k | 0 <= k < |imports| && !Skipped(env, imports[k])
        ensures || cfg.dry
                || Probed(VendorPath(cfg, env, imports[k]), Present) in r.log
                || VendorPath(cfg, env, imports[k]) in r.fs
      {
        if k == 0 {
          SyncImportDone(fs, imports[0], cfg, env);
        } else {
          assert imports[k] == imports[1..][k - 1];
        }
      }
    }
  }

  /** Re-running over a vendor tree that already holds every import changes nothing. */
  lemma {:induction false} SyncAllAlreadyVendored(fs: FS, imports: seq<string>, cfg: Config, env: Collaborators)
    requires forall k :: 0 <= k < |imports| ==>
               Skipped(env, imports[k]) || env.isDirExist(fs, VendorPath(cfg, env, imports[k])) == Present
    ensures var r := SyncAll(fs, imports, cfg, env);
            && r.err.None? && r.fs == fs
            && forall e :: e in r.log ==> e.Probed? && e.answer == Present
    decreases |imports|
  {
    if imports != [] {
      var rest := imports[1..];
      assert forall k :: 0 <= k < |rest| ==> rest[k] == imports[k + 1];
      SyncAllAlreadyVendored(fs, rest, cfg, env);
    }
  }

  /**
   * For well-named trees, a successful import that is not skipped either
   * found its vendor dir, was a dry run, or left the vendor path a directory.
   */
  lemma SyncImportVendorDir(fs: FS, imp: string, cfg: Config, env: Collaborators)
    requires !Skipped(env, imp) && SyncImport(fs, imp, cfg, env).err.None?
    requires NamesValid(CopyFrom(fs, imp, cfg, env)) && ValidNames(VendorPath(cfg, env, imp))
    ensures var r := SyncImport(fs, imp, cfg, env);
            || cfg.dry
            || Probed(VendorPath(cfg, env, imp), Present) in r.log
            || IsDir(r.fs, VendorPath(cfg, env, imp))
  {
    if Copies(fs, imp, cfg, env) {
      CopyDirLeavesDestDir(CopyFrom(fs, imp, cfg, env), SourcePath(cfg, env, imp),
                           VendorPath(cfg, env, imp), [IsGitPath], cfg.now);
    }
  }

  /**
   * For well-named trees, one import changes nothing outside its vendor
   * path's subtree and ancestors, beyond what `go get` added; without a
   * `go get` it changes nothing else at all.
   */
  lemma SyncImportWritesUnderVendor(fs: FS, imp: string, cfg: Config, env: Collaborators)
    requires NamesValid(CopyFrom(fs, imp, cfg, env)) && ValidNames(VendorPath(cfg, env, imp))
    ensures var r := SyncImport(fs, imp, cfg, env);
            var p := VendorPath(cfg, env, imp);
            forall q :: !IsPrefix(q, p) && !IsPrefix(p, q) ==> Lookup(r.fs, q) == Lookup(CopyFrom(fs, imp, cfg, env), q)
    ensures var r := SyncImport(fs, imp, cfg, env);
            var p := VendorPath(cfg, env, imp);
            (forall e :: e in r.log ==> !e.GoGet?) ==>
              forall q :: !IsPrefix(q, p) && !IsPrefix(p, q) ==> Lookup(r.fs, q) == Lookup(fs, q)
  {
    if Copies(fs, imp, cfg, env) {
      CopyDirWritesUnderDest(CopyFrom(fs, imp, cfg, env), SourcePath(cfg, env, imp),
                             VendorPath(cfg, env, imp), [IsGitPath], cfg.now);
    }
  }
}
