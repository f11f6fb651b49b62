# gop ensure: vendor synchronisation, modelled in Dafny

`gop ensure` copies a Go project's third-party imports into the project's
`src/vendor` directory. It works through the imports one at a time:

- It skips standard-library paths, `"C"` and relative imports.
- It normalises the import name.
- It leaves an import alone when `vendor/<name>` already exists.
- Otherwise it reports the import. In a dry run it stops there.
- Outside a dry run, it can fetch the package with `go get` when the
  package is absent from `GOPATH/src/<name>`.
- Then it copies `GOPATH/src/<name>` into the vendor tree, leaving out the
  top-level `.git*` entries.

The first error ends the whole run.

The copy relies on three helpers:

- `StatDir` builds a depth-first, pre-order manifest of relative paths.
  Directories carry a trailing `/`. Any `.DS_Store` name is dropped with
  its subtree.
- `CopyDir` refuses an existing destination, creates it, and then
  materialises the manifest entry by entry.
- `Copy` recreates a symbolic link with the same target string. For any
  other source it creates the destination, copies the bytes, and then sets
  the source's modification time and mode.

The model runs against an in-memory filesystem, a map from absolute paths
(sequences of names) to entries:

- `Dir`;
- `File(bytes, mtime, mode)`;
- `Symlink(target)`.

The modules are:

- `Paths`: path names, `path.Join`/`filepath.Join` with their cleaning of
  `.`, `..` and empty pieces, and the manifest strings.
- `Files`: the filesystem and the operating-system calls the code makes:
  `Stat` (through `IsDir` and `IsExist`), `Readdir`, `MkdirAll`, `Create`
  and `Symlink`. Each call is a pure transition that returns an error or
  the new filesystem.
- `Manifest`: `statDir` and `StatDir` as recursive functions, with lemmas
  for soundness, completeness and pre-order.
- `Copier`: `Copy` and `CopyDir` as transitions, with lemmas for the
  existence check, the order of writes, the filter and the frame.
- `Ensure`: the import loop of `runEnsure` as a fold that stops at the
  first error and records its observable steps (probes, the "copying"
  line, `go get`, `CopyDir`) as events.
- `Vendoring`: class `FileSystem`, which holds the entry map. Its methods
  carry out the same operations one step at a time, with loops over the
  listing, the manifest and the imports. Each method is proved to end in
  exactly the state, error and event log that the matching function
  describes.

Code that is not part of this model is passed in as parameters:

- `IsGoRepoPath`, `util.NormalizeName`, `isDirExist` and the `go get`
  command are fields of a `Collaborators` record.
- The result of `ListImports` is an input of type `Result`.
- The clock that `os.Create` stamps a new file with is `Config.now`.
- The resolved vendor directory, the `GOPATH`, and the `dry` and `get`
  flags are fields of `Config`.

## Model

| member | source | states |
|---|---|---|
| Paths.Join | cmd/ensure.go:207-208 | `path.Join` of a relative prefix and a valid name (not empty, `.` or `..`, and without `/`), the only kind `Readdir` yields, splits back into the prefix's pieces followed by that name (just the name when the prefix is empty) |
| Paths.JoinPath | cmd/ensure.go:277-281 | `filepath.Join`/`path.Join` of a clean base and a relative path made of valid names is the base extended by exactly those names |
| Paths.RenderRoundTrip | cmd/ensure.go:277-281 | joining a manifest string built from valid names onto a clean base gives that base extended by exactly those names, so `path.Join(destPath, info)` lands at the entry's relative path |
| Paths.RenderHasPrefix | cmd/ensure.go:118-120 | for a prefix without `/`, a manifest string starts with it exactly when the first name of its relative path does |
| Paths.RenderHasSuffix | cmd/ensure.go:278 | a manifest string ends in `/` exactly when it was rendered for a directory |
| Paths.SplitJoinAll | cmd/ensure.go:207 | splitting a path built by successive `path.Join` calls gives back the start's pieces followed by the joined names |
| Files.IsDir | cmd/ensure.go:132-138 | true exactly when the path exists and is a directory; a file, a link or a missing path gives false, never an error |
| Files.IsExist | cmd/ensure.go:184-187 | true exactly when the path has an entry of any kind |
| Files.ReadDir | cmd/ensure.go:196-199 | the listing of a directory holds exactly the names of its children, each once, in ascending order |
| Files.MkdirAll | cmd/ensure.go:256-259 | on success the path is a directory; on failure nothing changes and some prefix of the path is a non-directory; existing entries are kept, and every new entry is a directory on the path's prefix chain |
| Files.MkdirAllKeepsTree | cmd/ensure.go:256-259 | in a tree where every entry's parent is a directory, `MkdirAll` keeps that shape |
| Files.Create | cmd/ensure.go:164-167 | succeeds exactly for an existing file or a missing path whose parent is a directory; the file is then empty and stamped with the clock; no other entry changes |
| Files.MakeSymlink | cmd/ensure.go:156 | succeeds exactly when the path is free and its parent is a directory, and then adds only the link; an existing path is an error |
| Manifest.Walk | cmd/ensure.go:201-222 | every string the loop yields is the joined relative path of an entry below the directory: non-empty, junk-free at every level, of a kind the flags ask for, and with `/` exactly for directories |
| Manifest.StatDirAt | cmd/ensure.go:189-223 | statDir fails exactly when the directory cannot be opened as a directory; otherwise it lists only visible entries below it and, in a well-formed tree, every one of them |
| Manifest.StatDir | cmd/ensure.go:232-242 | fails exactly when the root is not an existing directory (the IsDir check), with the "not a directory or does not exist" error |
| Manifest.WalkComplete | cmd/ensure.go:201-222 | in a well-formed tree, every visible entry under a listed name appears in the walk |
| Manifest.WalkPreorder | cmd/ensure.go:209-217 | a listed directory's own `rel/` entry is followed at once by the whole walk of that directory |
| Manifest.WalkUnder | cmd/ensure.go:207-217 | every entry of a subdirectory's walk starts with that subdirectory's relative path and a separator |
| Manifest.StatDirSound | cmd/ensure.go:225-242 | the manifest holds only root-relative paths of entries below the root, never the root itself, and nothing under a `.DS_Store` name |
| Manifest.StatDirComplete | cmd/ensure.go:225-242 | in a well-formed tree, every entry below the root with no `.DS_Store` name on its way is listed |
| Manifest.StatDirPreorder | cmd/ensure.go:225-242 | with directories included, each listed directory appears as `rel/` immediately before its own subtree's entries, all of which start with `rel/` |
| Copier.CopyFile | cmd/ensure.go:141-180 | a missing source is an error; a symbolic link is recreated with the same target and no metadata, and only when dest is free; a regular file arrives with the source's bytes, mtime and mode; a directory source is an error; nothing but dest changes |
| Copier.Excluded | cmd/ensure.go:267-275 | without a filter nothing is left out; otherwise only the first filter decides |
| Copier.CopyEntry | cmd/ensure.go:277-285 | one entry removes nothing, changes no existing entry but its own destination, and writes nothing outside that destination's ancestors; on success a `/` entry is a directory there, and any other entry whose source path differs from its destination path holds exactly the source's entry |
| Copier.CopyEntries | cmd/ensure.go:272-287 | the loop never removes an entry, and a manifest the filter leaves out entirely succeeds with nothing changed |
| Copier.IsGitPath | cmd/ensure.go:118-120 | a matched path stays matched when extended, so a `.git/` entry and everything listed under it are all left out |
| Copier.CopyDir | cmd/ensure.go:250-254 | an existing destination is refused before any write, with the filesystem unchanged |
| Copier.CopyEntriesFrame | cmd/ensure.go:272-286 | the manifest loop removes nothing and changes nothing outside the paths of the entries it materialises |
| Copier.CopyEntriesPresent | cmd/ensure.go:272-286 | after a successful loop, every entry the filter let through exists at its destination |
| Copier.CopyEntriesCopies | cmd/ensure.go:272-286 | after a successful loop whose destinations never reach a source and never collide, every entry let through holds a directory or exactly what its source held before the loop |
| Copier.CopyDirGrows | cmd/ensure.go:250-288 | CopyDir never removes an entry |
| Copier.CopyDirCreatesDestFirst | cmd/ensure.go:256-265 | the destination exists afterwards whenever its own creation succeeded, even if the listing then fails |
| Copier.CopyDirMissingSource | cmd/ensure.go:256-265 | a missing or non-directory source that is not an ancestor of the destination fails with StatDir's error after the destination directory has been created |
| Copier.CopyDirSuccess | cmd/ensure.go:267-286 | on success, every manifest entry that the filter does not exclude exists under the destination |
| Copier.CopyDirLeavesDestDir | cmd/ensure.go:256-286 | for well-named trees, a successful CopyDir leaves the destination a directory |
| Copier.CopyDirMirrors | cmd/ensure.go:250-288 | for a well-formed, well-named tree and a source and destination that are not nested, a successful CopyDir puts every visible source entry the filter keeps at the same relative place under the destination: a directory as a directory, a file with the source's bytes, mtime and mode, a link with the source's target string |
| Copier.CopyDirSkipsGit | cmd/ensure.go:267-286 | with the `.git` prefix filter, nothing at the destination of an excluded entry is created or changed, and no path under dest whose first name below dest starts with `.git` is created or changed |
| Copier.CopyDirOnlyMirrors | cmd/ensure.go:250-288 | for a well-formed, well-named tree and a source and destination that are not nested, a successful CopyDir with the `.git` filter puts nothing strictly below dest except at the place of a visible source entry the filter keeps: the converse of CopyDirMirrors |
| Copier.CopyDirSucceeds | cmd/ensure.go:250-288 | for a well-formed, well-named tree, a source directory, a missing destination that MkdirAll can create, and the two not nested, CopyDir with the `.git` filter succeeds |
| Copier.GitFilterTopLevel | cmd/ensure.go:118-120 | the filter excludes a manifest entry exactly when its top-level name starts with `.git`, so `.gitignore` is excluded and a nested `sub/.git` is not |
| Copier.ManifestTargets | cmd/ensure.go:277-281 | every manifest entry of a well-named tree lands at the destination extended by that entry's relative path |
| Copier.CopyDirWritesUnderDest | cmd/ensure.go:250-288 | nothing outside the destination and its ancestors changes |
| Ensure.Skipped | cmd/ensure.go:78-84 | a skipped import is a standard-library path, `"C"`, or starts with a dot; a bare `.` or `..` is not skipped |
| Ensure.VendorPath | cmd/ensure.go:89-90 | for a normalised name made of valid pieces, the vendor path is the vendor dir extended by those pieces |
| Ensure.SourcePath | cmd/ensure.go:99 | for a normalised name made of valid pieces, the source path is `GOPATH/src` extended by those pieces |
| Ensure.FetchAndCopy | cmd/ensure.go:106-123 | a source probe error ends the round unchanged; `go get` runs exactly when the source is absent and `get` is set, and its failure ends the round unchanged with no copy; otherwise the copy is logged and the result is CopyDir's on the filesystem with the fetched entries |
| Ensure.SyncImport | cmd/ensure.go:78-124 | a skipped import does nothing; an existing vendor dir means one probe and no change; either probe error ends the import with that error and no change; a dry run never fetches, copies or writes; `go get` runs exactly when neither dir exists, `get` is set and the run is not dry, and its failure stops before any copy with no change; otherwise the copy is logged and the import's error and state are exactly CopyDir's; nothing else copies |
| Ensure.SyncAll | cmd/ensure.go:77-125 | a dry run leaves the filesystem unchanged and neither fetches nor copies |
| Ensure.SyncImportReports | cmd/ensure.go:89-104 | the "copying" line is printed exactly for an import that is not skipped and whose vendor dir is absent, and it names the normalised import; in a dry run that import then ends with the vendor probe and that line, and nothing else |
| Ensure.SyncAllDryReports | cmd/ensure.go:77-104 | in a dry run every "copying" line names a listed import that is not skipped and had no vendor dir, and on success every such import has its line |
| Ensure.RunEnsure | cmd/ensure.go:73-76 | a failed import listing is returned at once, with nothing done |
| Ensure.SyncImportGrows | cmd/ensure.go:110-123 | one import never removes an entry: `go get` only adds and CopyDir only adds |
| Ensure.SyncImportDone | cmd/ensure.go:89-124 | a successful import that is not skipped either found its vendor dir, was a dry run, or left the vendor path in place |
| Ensure.SyncImportVendorDir | cmd/ensure.go:89-124 | for well-named trees, a successful import that is not skipped either found its vendor dir, was a dry run, or left the vendor path a directory |
| Ensure.SyncImportWritesUnderVendor | cmd/ensure.go:106-123 | for well-named trees, an import changes nothing outside its vendor path's subtree and ancestors beyond what `go get` added, and without `go get` nothing else at all |
| Ensure.SyncAllGrows | cmd/ensure.go:77-125 | the run never removes an entry |
| Ensure.SyncAllFailFast | cmd/ensure.go:77-127 | an error run ends at one import i: every earlier import succeeded, and the result is exactly import i's error and state, with no event from any later import; everything the earlier imports created remains |
| Ensure.SyncAllSuccess | cmd/ensure.go:77-127 | on success, for every import that is not skipped, the run was dry, or its vendor dir was found, or the vendor dir now exists |
| Ensure.SyncAllAlreadyVendored | cmd/ensure.go:89-97 | when every import is skipped or already vendored, the run succeeds and changes nothing, and its only events are successful probes |
| Vendoring.FileSystem.MkdirAll | cmd/ensure.go:256-259 | the call on the entry map ends in the state and error of `Files.MkdirAll` |
| Vendoring.FileSystem.Create | cmd/ensure.go:164-167 | the call on the entry map ends in the state and error of `Files.Create` |
| Vendoring.FileSystem.Symlink | cmd/ensure.go:156 | the call on the entry map ends in the state and error of `Files.MakeSymlink` |
| Vendoring.FileSystem.Copy | cmd/ensure.go:141-180 | Lstat, then Symlink, or Create followed by byte copy, Chtimes and Chmod, ends in exactly the state and error of `Copier.CopyFile` |
| Vendoring.FileSystem.WalkDir | cmd/ensure.go:189-223 | statDir on an existing directory returns exactly the walk of its listing |
| Vendoring.FileSystem.WalkNames | cmd/ensure.go:201-222 | the loop over a listing appends exactly the walk of that listing |
| Vendoring.FileSystem.WalkName | cmd/ensure.go:203-220 | one round of the loop contributes exactly the part of the walk that belongs to the current name |
| Vendoring.FileSystem.StatDir | cmd/ensure.go:232-242 | returns exactly `Manifest.StatDir` of the current entries |
| Vendoring.FileSystem.CopyDir | cmd/ensure.go:250-288 | ends in exactly the state and error of `Copier.CopyDir` |
| Vendoring.FileSystem.CopyEntries | cmd/ensure.go:272-286 | the loop over the manifest, returning at the first error, ends in exactly the state and error of `Copier.CopyEntries` |
| Vendoring.FileSystem.EnsureImport | cmd/ensure.go:78-124 | one round of the import loop ends in exactly the error, state and events of `Ensure.SyncImport` |
| Vendoring.FileSystem.FetchAndCopy | cmd/ensure.go:106-123 | the source probe, the optional `go get` and CopyDir end in exactly the error, state and events of `Ensure.FetchAndCopy` |
| Vendoring.FileSystem.RunEnsure | cmd/ensure.go:73-127 | the whole loop, returning at the first error, ends in exactly the error, state and events of `Ensure.RunEnsure` |

## Left out

- `cmd/init.go` is not part of this model. It is project scaffolding with no decisions beyond "create if absent".
- Command-line wiring is left out. This covers flag and argument parsing, the `GOPATH` environment lookup, `loadConfig`, `analysisDirLevel`, `analysisTarget` and the build-tag setup. Their resolved results are the fields of `Config`.
- `ListImports`, `IsGoRepoPath`, `util.NormalizeName` and `isDirExist` are uninterpreted parameters, because their code is elsewhere. `isDirExist` is therefore not tied to the filesystem, and a "present" vendor dir is a probe answer, not a map fact.
- The `go get` subprocess is an abstract effect. It fails, or it adds (or overwrites) entries; it never removes one.
- `Readdir` returns children in ascending name order, one fixed instance of the unspecified order.
- `os.Stat` does not follow symbolic links: `IsDir` and `IsExist` look at the link itself. `os.Create` through an existing link is an error, because following links is outside the model.
- Permission and disk errors are not modelled: only the errors that follow from the shape of the tree can happen. Nor are failures of `Readlink`, `Open`, `Close`, `Chtimes` and `Chmod` on a file that was just created modelled, nor errors from `statDir` on a subdirectory that is listed.
- The umask is not modelled: new files get mode 0666, and `MkdirAll` directories carry no mode.
- `io.Copy` streaming and the deferred `Close` calls are left out: the bytes arrive in one step.
- `fmt.Println("copying", imp)` is the `Copying` event, and the output of `go get` is not modelled.
- Ensure.SyncImportDone: states that the vendor path exists as a key. `Ensure.SyncImportVendorDir` proves it is a directory, for well-named trees only.
- Ensure.SyncAllSuccess: states that the vendor path exists as a key, not that it is a directory with the package's files. The latter depends on the uninterpreted `go get` and `isDirExist`.
- Copier.CopyFile: the "same bytes, mtime and mode" clause is stated for a distinct source and destination. When the two are the same, `os.Create` truncates the source first, and the model then copies nothing.
- Copier.CopyDirSkipsGit: assumes that every key of the filesystem and the destination are made of valid names, so that each manifest string resolves to exactly the entry it came from.
- Copier.CopyDirMirrors: assumes a well-formed tree with valid names, and a source and destination that are not nested. Without valid names a manifest string can resolve elsewhere. With nested paths the copy can write into its own source.
- Paths.Join: does not clean an empty, `.` or `..` name the way `path.Join` does. `Readdir` never returns such a name, and the contract is stated for valid names.
- Copier.CopyDirSucceeds: assumes a well-formed tree with valid names, and a source and destination that are not nested. Without valid names a manifest string can resolve elsewhere, and with nested paths the copy can run into its own output.
- Copier.CopyDirOnlyMirrors: assumes the same as CopyDirMirrors, and is stated for the synchronizer's `.git` filter only.
- Ensure.SyncImportVendorDir and Ensure.SyncImportWritesUnderVendor: assume that the filesystem CopyDir runs on, and the vendor path, are made of valid names.
