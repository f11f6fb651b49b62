/**
 * The filesystem as mutable state: the operations of the ensure command as
 * methods that change the entry map step by step, each proved to end in the
 * state (and with the error) the specification functions describe.
 */
module Vendoring {
  import opened Wrappers
  import opened Paths
  import opened Files
  import opened Manifest
  import opened Copier
  import opened Ensure

  class FileSystem {
    /** Every existing path and what is stored there. */
    var entries: FS

    constructor (initial: FS)
      ensures entries == initial
    {
      entries := initial;
    }

    /** os.MkdirAll, as one operating-system call. */
    method MkdirAll(p: Path) returns (err: Option<Error>)
      modifies this
      ensures Outcome(err, entries) == Files.MkdirAll(old(entries), p)
    {
      var o := Files.MkdirAll(entries, p);
      entries := o.fs;
      err := o.err;
    }

    /** os.Create, as one operating-system call. */
    method Create(p: Path, now: int) returns (err: Option<Error>)
      modifies this
      ensures Outcome(err, entries) == Files.Create(old(entries), p, now)
    {
      var o := Files.Create(entries, p, now);
      entries := o.fs;
      err := o.err;
    }

    /** os.Symlink, as one operating-system call. */
    method Symlink(target: string, p: Path) returns (err: Option<Error>)
      modifies this
      ensures Outcome(err, entries) == MakeSymlink(old(entries), target, p)
    {
      var o := MakeSymlink(entries, target, p);
      entries := o.fs;
      err := o.err;
    }

    /**
     * Copy(src, dest): Lstat, then either Symlink, or Create followed by the
     * byte copy, Chtimes and Chmod on dest.
     */
    method Copy(src: Path, dest: Path, now: int) returns (err: Option<Error>)
      modifies this
      ensures Outcome(err, entries) == CopyFile(old(entries), src, dest, now)
    {
      if src !in entries {
        return Some(NotExist(src));
      }
      var si := entries[src];
      if si.Symlink? {
        err := Symlink(si.target, dest);
        return;
      }
      err := Create(dest, now);
      if err.Some? {
        return;
      }
      if !entries[src].File? {
        // reading a directory fails once dest has been created
        return Some(IsDirectory(src));
      }
      ghost var created := entries;
      var data := entries[src].data;
      entries := entries[dest := entries[dest].(data := data)];     // io.Copy
      entries := entries[dest := entries[dest].(mtime := si.mtime)]; // os.Chtimes
      entries := entries[dest := entries[dest].(mode := si.mode)];   // os.Chmod
      assert entries == created[dest := File(data, si.mtime, si.mode)];
    }

    /**
     * statDir(dirPath, recPath, ...) on an existing directory: the loop over
     * the listing, appending the entries of each name in turn.
     */
    method WalkDir(dirPath: Path, recPath: string, includeDir: bool, isDirOnly: bool)
      returns (statList: seq<string>)
      requires dirPath in entries
      ensures statList == Walk(entries, dirPath, recPath, ReadDir(entries, dirPath), includeDir, isDirOnly)
      decreases |Below(entries, dirPath)|, 2
    {
      var fis := ReadDir(entries, dirPath);
      statList := WalkNames(dirPath, recPath, fis, includeDir, isDirOnly);
    }

    /** The loop of statDir over the listing `fis` of `dirPath`. */
    method WalkNames(dirPath: Path, recPath: string, fis: seq<Name>, includeDir: bool, isDirOnly: bool)
      returns (statList: seq<string>)
      requires dirPath in entries
      requires forall k :: 0 <= k < |fis| ==> dirPath + [fis[k]] in entries
      ensures statList == Walk(entries, dirPath, recPath, fis, includeDir, isDirOnly)
      decreases |Below(entries, dirPath)|, 1
    {
      statList := [];
      var rest := fis;
      while rest != []
        invariant forall k :: 0 <= k < |rest| ==> dirPath + [rest[k]] in entries
        invariant statList + Walk(entries, dirPath, recPath, rest, includeDir, isDirOnly)
                  == Walk(entries, dirPath, recPath, fis, includeDir, isDirOnly)
        decreases |rest|
      {
        var step := WalkName(dirPath, recPath, rest, includeDir, isDirOnly);
        statList := statList + step;
        rest := rest[1..];
      }
    }

    /**
     * One round of the loop of statDir, for the first of `names`: skipped if
     * junk, otherwise its entry and, for a directory, the directory's walk.
     */
    method WalkName(dirPath: Path, recPath: string, names: seq<Name>, includeDir: bool, isDirOnly: bool)
      returns (step: seq<string>)
      requires dirPath in entries && names != []
      requires forall k :: 0 <= k < |names| ==> dirPath + [names[k]] in entries
      ensures step + Walk(entries, dirPath, recPath, names[1..], includeDir, isDirOnly)
              == Walk(entries, dirPath, recPath, names, includeDir, isDirOnly)
      decreases |Below(entries, dirPath)|, 0
    {
      var name := names[0];
      WalkUnfold(entries, dirPath, recPath, names, includeDir, isDirOnly);
      step := [];
      if !IsJunk(name) {
        var relPath := Join(recPath, name);
        var curPath := dirPath + [name];
        if entries[curPath].Dir? {
          if includeDir {
            step := [relPath + "/"];
          }
          BelowShrinks(entries, dirPath, name);
          var s := WalkDir(curPath, relPath, includeDir, isDirOnly);
          step := step + s;
        } else if !isDirOnly {
          step := [relPath];
        }
      }
    }

    /** StatDir(rootPath, includeDir...): checks the root, then walks it. */
    method StatDir(rootPath: Path, includeDir: seq<bool>) returns (r: Result<seq<string>, Error>)
      ensures r == Manifest.StatDir(entries, rootPath, includeDir)
    {
      if !IsDir(entries, rootPath) {
        return Failure(NotADirOrMissing(rootPath));
      }
      var isIncludeDir := |includeDir| >= 1 && includeDir[0];
      var list := WalkDir(rootPath, "", isIncludeDir, false);
      r := Success(list);
    }

    /**
     * CopyDir(srcPath, destPath, filters...): refuses an existing dest,
     * creates it, lists the source and materialises the manifest entry by
     * entry, returning the first error.
     */
    method CopyDir(src: Path, dest: Path, filters: seq<string -> bool>, now: int) returns (err: Option<Error>)
      modifies this
      ensures Outcome(err, entries) == Copier.CopyDir(old(entries), src, dest, filters, now)
    {
      if IsExist(entries, dest) {
        return Some(AlreadyExists(dest));
      }
      err := MkdirAll(dest);
      if err.Some? {
        return;
      }
      var listed := StatDir(src, [true]);
      if listed.Failure? {
        return Some(listed.error);
      }
      err := CopyEntries(src, dest, listed.value, filters, now);
    }

    /** The loop of CopyDir over the manifest `infos`. */
    method CopyEntries(src: Path, dest: Path, infos: seq<string>, filters: seq<string -> bool>, now: int)
      returns (err: Option<Error>)
      modifies this
      ensures Outcome(err, entries) == Copier.CopyEntries(old(entries), src, dest, infos, filters, now)
    {
      var rest := infos;
      while rest != []
        invariant Copier.CopyEntries(old(entries), src, dest, infos, filters, now)
                  == Copier.CopyEntries(entries, src, dest, rest, filters, now)
        decreases |rest|
      {
        var info := rest[0];
        if !Excluded(filters, info) {
          var curPath := JoinPath(dest, info);
          if HasSuffix(info, "/") {
            err := MkdirAll(curPath);
          } else {
            err := Copy(JoinPath(src, info), curPath, now);
          }
          if err.Some? {
            return;
          }
        }
        rest := rest[1..];
      }
      err := None;
    }

    /** One round of the import loop of runEnsure. */
    method EnsureImport(imp: string, cfg: Config, env: Collaborators) returns (err: Option<Error>, log: seq<Event>)
      modifies this
      ensures Run(err, entries, log) == SyncImport(old(entries), imp, cfg, env)
    {
      err, log := None, [];
      if Skipped(env, imp) {
        return;
      }
      var name := env.normalizeName(imp);
      var p := VendorPath(cfg, env, imp);
      var exist := env.isDirExist(entries, p);
      log := log + [Probed(p, exist)];
      if exist.ProbeError? {
        return Some(ProbeFailed(exist.reason)), log;
      }
      if exist == Present {
        return;
      }
      log := log + [Copying(name)];
      if cfg.dry {
        return;
      }
      var rest;
      err, rest := FetchAndCopy(imp, cfg, env);
      log := log + rest;
    }

    /** The round after the "copying" line: probe the source, maybe `go get`, then CopyDir. */
    method FetchAndCopy(imp: string, cfg: Config, env: Collaborators) returns (err: Option<Error>, log: seq<Event>)
      modifies this
      ensures Run(err, entries, log) == Ensure.FetchAndCopy(old(entries), imp, cfg, env)
    {
      var name := env.normalizeName(imp);
      var p := VendorPath(cfg, env, imp);
      var srcDir := SourcePath(cfg, env, imp);
      var exist := env.isDirExist(entries, srcDir);
      log := [Probed(srcDir, exist)];
      if exist.ProbeError? {
        return Some(ProbeFailed(exist.reason)), log;
      }
      if exist == Absent && cfg.get {
        log := log + [GoGet(name)];
        var got := env.goGet(entries, name);
        if got.GetError? {
          return Some(GetFailed(got.reason)), log;
        }
        entries := entries + got.added;
      }
      log := log + [CopyTree(srcDir, p)];
      err := CopyDir(srcDir, p, [IsGitPath], cfg.now);
    }

    /** runEnsure from the listing of the imports on: the loop, returning the first error. */
    method RunEnsure(listed: Result<seq<string>, string>, cfg: Config, env: Collaborators)
      returns (err: Option<Error>, log: seq<Event>)
      modifies this
      ensures Run(err, entries, log) == Ensure.RunEnsure(old(entries), listed, cfg, env)
    {
      if listed.Failure? {
        return Some(ListImportsFailed(listed.error)), [];
      }
      var imports := listed.value;
      ghost var full := SyncAll(entries, imports, cfg, env);
      err, log := None, [];
      var rest := imports;
      while rest != []
        invariant var r := SyncAll(entries, rest, cfg, env);
                  full == Run(r.err, r.fs, log + r.log)
        decreases |rest|
      {
        var e, l := EnsureImport(rest[0], cfg, env);
        log := log + l;
        if e.Some? {
          return e, log;
        }
        rest := rest[1..];
      }
    }
  }
}
