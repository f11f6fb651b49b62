/**
 * The recursive copier: Copy (one file or symbolic link) and CopyDir (a
 * whole tree under an exclusion filter), as transitions of the abstract
 * filesystem.
 */
module Copier {
  import opened Wrappers
  import opened Paths
  import opened Files
  import opened Manifest

  /**
   * Copy(src, dest): a symbolic link is recreated with the same target
   * string; anything else is opened, dest is created, the bytes are copied,
   * and then the source's modification time and mode are set on dest.
   */
  function CopyFile(fs: FS, src: Path, dest: Path, now: int): (o: Outcome)
    ensures src !in fs ==> o == Outcome(Some(NotExist(src)), fs)
    ensures forall q :: q in fs && q != dest ==> q in o.fs && o.fs[q] == fs[q]
    ensures fs.Keys <= o.fs.Keys <= fs.Keys + {dest}
    ensures o.err.None? ==> dest in o.fs
    ensures src in fs && fs[src].Symlink? ==>
              && (o.err.None? <==> dest !in fs && dest != [] && IsDir(fs, Parent(dest)))
              && (o.err.None? ==> o.fs == fs[dest := Symlink(fs[src].target)])
    ensures src in fs && fs[src].File? && src != dest ==>
              && (o.err.None? <==> (dest in fs && fs[dest].File?)
                                   || (dest !in fs && dest != [] && IsDir(fs, Parent(dest))))
              && (o.err.None? ==> o.fs[dest] == fs[src])
    ensures src in fs && fs[src].Dir? ==> o.err.Some?
  {
    if src !in fs then Outcome(Some(NotExist(src)), fs)
    else
      var si := fs[src];
      if si.Symlink? then MakeSymlink(fs, si.target, dest)
      else
        var c := Create(fs, dest, now);
        if c.err.Some? then c
        else if !c.fs[src].File? then Outcome(Some(IsDirectory(src)), c.fs)
        else Outcome(None, c.fs[dest := File(c.fs[src].data, si.mtime, si.mode)])
  }

  /** Whether the optional filter of CopyDir leaves `info` out: only the first filter is consulted. */
  predicate Excluded(filters: seq<string -> bool>, info: string)
    ensures filters == [] ==> !Excluded(filters, info)
    ensures |filters| > 0 ==> (Excluded(filters, info) <==> filters[0](info))
  {
    |filters| > 0 && filters[0](info)
  }

  /**
   * What a materialised entry holds at `t`: a directory for a "/" entry,
   * the source's entry (`source`) for anything else.
   */
  predicate Copied(fs: FS, t: Path, info: string, source: Option<Entry>) {
    t in fs && if HasSuffix(info, "/") then fs[t] == Dir else source == Some(fs[t])
  }

  /**
   * One manifest entry: a directory is made, anything else is copied. The
   * loop body only ever changes the entry's own destination and the
   * missing directories above it.
   */
  function CopyEntry(fs: FS, src: Path, dest: Path, info: string, now: int): (o: Outcome)
    ensures fs.Keys <= o.fs.Keys
    ensures o.err.None? ==> JoinPath(dest, info) in o.fs
    ensures forall q :: q in fs && q != JoinPath(dest, info) ==> o.fs[q] == fs[q]
    ensures forall q :: !IsPrefix(q, JoinPath(dest, info)) ==> Lookup(o.fs, q) == Lookup(fs, q)
    ensures o.err.None? && JoinPath(src, info) != JoinPath(dest, info) ==>
              Copied(o.fs, JoinPath(dest, info), info, Lookup(fs, JoinPath(src, info)))
  {
    var curPath := JoinPath(dest, info);
    assert IsPrefix(curPath, curPath) by { assert curPath[..|curPath|] == curPath; }
    if HasSuffix(info, "/") then MkdirAll(fs, curPath)
    else CopyFile(fs, JoinPath(src, info), curPath, now)
  }

  /**
   * The loop of CopyDir over the manifest, stopping at the first error. It
   * never removes a path, and a manifest the filter excludes entirely
   * changes nothing.
   */
  function CopyEntries(fs: FS, src: Path, dest: Path, infos: seq<string>,
                       filters: seq<string -> bool>, now: int): (o: Outcome)
    ensures fs.Keys <= o.fs.Keys
    ensures (forall i :: 0 <= i < |infos| ==> Excluded(filters, infos[i])) ==> o == Outcome(None, fs)
    decreases |infos|
  {
    if infos == [] then Outcome(None, fs)
    else if Excluded(filters, infos[0]) then
      assert forall i :: 0 <= i < |infos[1..]| ==> infos[1..][i] == infos[i + 1];
      CopyEntries(fs, src, dest, infos[1..], filters, now)
    else
      var o := CopyEntry(fs, src, dest, infos[0], now);
      if o.err.Some? then o else CopyEntries(o.fs, src, dest, infos[1..], filters, now)
  }

  /**
   * CopyDir(srcPath, destPath, filters...): refuses an existing destination,
   * creates it, lists the source with directories, and materialises every
   * entry the filter does not exclude.
   */
  function CopyDir(fs: FS, src: Path, dest: Path, filters: seq<string -> bool>, now: int): (o: Outcome)
    ensures IsExist(fs, dest) ==> o == Outcome(Some(AlreadyExists(dest)), fs)
  {
    if IsExist(fs, dest) then Outcome(Some(AlreadyExists(dest)), fs)
    else
      var m := MkdirAll(fs, dest);
      if m.err.Some? then m
      else
        match StatDir(m.fs, src, [true])
        case Failure(e) => Outcome(Some(e), m.fs)
        case Success(infos) => CopyEntries(m.fs, src, dest, infos, filters, now)
  }

  /** The filter the synchronizer passes: HasPrefix(path, ".git"). */
  function IsGitPath(path: string): (r: bool)
    ensures r ==> forall s :: HasPrefix(path + s, ".git")
  {
    assert HasPrefix(path, ".git") ==> forall s :: HasPrefix(path + s, ".git") by {
      forall s | HasPrefix(path, ".git") ensures HasPrefix(path + s, ".git") {
        assert (path + s)[..4] == path[..4];
      }
    }
    HasPrefix(path, ".git")
  }

  // ---------------------------------------------------------------------
  // Lemmas

  /** Some entry the loop materialises lies at or below `q`. */
  ghost predicate Touches(dest: Path, infos: seq<string>, filters: seq<string -> bool>, q: Path) {
    exists i :: 0 <= i < |infos| && !Excluded(filters, infos[i]) && IsPrefix(q, JoinPath(dest, infos[i]))
  }

  /**
   * The copy loop never removes a path, and changes only paths at or below
   * the destination of an entry it does not exclude.
   */
  lemma {:induction false} CopyEntriesFrame(fs: FS, src: Path, dest: Path, infos: seq<string>,
                                            filters: seq<string -> bool>, now: int)
    ensures var o := CopyEntries(fs, src, dest, infos, filters, now);
            && fs.Keys <= o.fs.Keys
            && forall q :: !Touches(dest, infos, filters, q) ==> Lookup(o.fs, q) == Lookup(fs, q)
    decreases |infos|
  {
    if infos != [] {
      var o := CopyEntries(fs, src, dest, infos, filters, now);
      forall q | Touches(dest, infos[1..], filters, q) ensures Touches(dest, infos, filters, q) {
        var i :| 0 <= i < |infos[1..]| && !Excluded(filters, infos[1..][i]) && IsPrefix(q, JoinPath(dest, infos[1..][i]));
        assert infos[1..][i] == infos[i + 1];
      }
      if Excluded(filters, infos[0]) {
        CopyEntriesFrame(fs, src, dest, infos[1..], filters, now);
      } else {
        var e := CopyEntry(fs, src, dest, infos[0], now);
        forall q | IsPrefix(q, JoinPath(dest, infos[0])) ensures Touches(dest, infos, filters, q) {
        }
        if e.err.None? {
          CopyEntriesFrame(e.fs, src, dest, infos[1..], filters, now);
        }
      }
    }
  }

  /** When the copy loop succeeds, every entry it does not exclude exists under dest. */
  lemma {:induction false} CopyEntriesPresent(fs: FS, src: Path, dest: Path, infos: seq<string>,
                                              filters: seq<string -> bool>, now: int)
    requires CopyEntries(fs, src, dest, infos, filters, now).err.None?
    ensures forall i :: 0 <= i < |infos| && !Excluded(filters, infos[i]) ==>
              JoinPath(dest, infos[i]) in CopyEntries(fs, src, dest, infos, filters, now).fs
    decreases |infos|
  {
    if infos != [] {
      var o := CopyEntries(fs, src, dest, infos, filters, now);
      var next := if Excluded(filters, infos[0]) then fs else CopyEntry(fs, src, dest, infos[0], now).fs;
      assert o == CopyEntries(next, src, dest, infos[1..], filters, now);
      CopyEntriesPresent(next, src, dest, infos[1..], filters, now);
      CopyEntriesFrame(next, src, dest, infos[1..], filters, now);
      forall i | 0 <= i < |infos| && !Excluded(filters, infos[i]) ensures JoinPath(dest, infos[i]) in o.fs {
        if i > 0 {
          assert infos[1..][i - 1] == infos[i];
        }
      }
    }
  }

  /** CopyDir never removes a path. */
  lemma CopyDirGrows(fs: FS, src: Path, dest: Path, filters: seq<string -> bool>, now: int)
    ensures fs.Keys <= CopyDir(fs, src, dest, filters, now).fs.Keys
  {
    if !IsExist(fs, dest) {
      var m := MkdirAll(fs, dest);
      if m.err.None? && StatDir(m.fs, src, [true]).Success? {
        CopyEntriesFrame(m.fs, src, dest, StatDir(m.fs, src, [true]).value, filters, now);
      }
    }
  }

  /**
   * The destination is created before the source is listed: once MkdirAll
   * succeeds, dest exists afterwards whatever the source is.
   */
  lemma CopyDirCreatesDestFirst(fs: FS, src: Path, dest: Path, filters: seq<string -> bool>, now: int)
    requires !IsExist(fs, dest) && MkdirAll(fs, dest).err.None?
    ensures dest in CopyDir(fs, src, dest, filters, now).fs
  {
    var m := MkdirAll(fs, dest);
    if StatDir(m.fs, src, [true]).Success? {
      CopyEntriesFrame(m.fs, src, dest, StatDir(m.fs, src, [true]).value, filters, now);
    }
  }

  /**
   * A missing source fails with StatDir's error and leaves the freshly
   * created, empty destination in place.
   */
  lemma CopyDirMissingSource(fs: FS, src: Path, dest: Path, filters: seq<string -> bool>, now: int)
    requires !IsExist(fs, dest) && MkdirAll(fs, dest).err.None?
    requires !IsDir(fs, src) && !IsPrefix(src, dest)
    ensures CopyDir(fs, src, dest, filters, now) == Outcome(Some(NotADirOrMissing(src)), MkdirAll(fs, dest).fs)
    ensures IsDir(CopyDir(fs, src, dest, filters, now).fs, dest)
  {
    var m := MkdirAll(fs, dest);
    assert !IsDir(m.fs, src);
  }

  /**
   * A successful CopyDir listed the source and left every entry of the
   * manifest that the filter does not exclude in place under dest.
   */
  lemma CopyDirSuccess(fs: FS, src: Path, dest: Path, filters: seq<string -> bool>, now: int)
    requires CopyDir(fs, src, dest, filters, now).err.None?
    ensures !IsExist(fs, dest)
    ensures var m := MkdirAll(fs, dest).fs;
            && StatDir(m, src, [true]).Success?
            && var infos := StatDir(m, src, [true]).value;
               forall i :: 0 <= i < |infos| && !Excluded(filters, infos[i]) ==>
                 JoinPath(dest, infos[i]) in CopyDir(fs, src, dest, filters, now).fs
  {
    var m := MkdirAll(fs, dest).fs;
    CopyEntriesPresent(m, src, dest, StatDir(m, src, [true]).value, filters, now);
  }

  /** The manifest entry `info` of `src` names `rel`, and copies to dest + rel. */
  ghost predicate LandsAt(fs: FS, src: Path, dest: Path, info: string, rel: seq<string>) {
    && Visible(fs, src, rel, true, false)
    && ValidNames(rel)
    && info == Render(rel, fs[src + rel].Dir?)
    && JoinPath(dest, info) == dest + rel
  }

  /** The manifest entries of a well-named tree land exactly at dest + their relative path. */
  lemma ManifestTargets(fs: FS, src: Path, dest: Path)
    requires NamesValid(fs) && StatDir(fs, src, [true]).Success?
    ensures forall info :: info in StatDir(fs, src, [true]).value ==>
              exists rel :: LandsAt(fs, src, dest, info, rel)
  {
    StatDirSound(fs, src, [true]);
    forall info | info in StatDir(fs, src, [true]).value
      ensures exists rel :: LandsAt(fs, src, dest, info, rel)
    {
      var rel :| Visible(fs, src, rel, true, false) && info == EntryName("", rel, fs[src + rel].Dir?);
      assert ValidNames(src + rel);
      assert forall i :: 0 <= i < |rel| ==> rel[i] == (src + rel)[|src| + i];
      assert ValidNames(rel);
      RenderRoundTrip(dest, rel, fs[src + rel].Dir?);
      assert LandsAt(fs, src, dest, info, rel);
    }
  }

  /** No entry the Git filter keeps lies at or below a ".git*" destination. */
  lemma GitTargetUntouched(fs: FS, src: Path, dest: Path, infos: seq<string>, rel: seq<string>)
    requires forall info :: info in infos ==> exists rel' :: LandsAt(fs, src, dest, info, rel')
    requires rel != [] && HasPrefix(rel[0], ".git")
    ensures !Touches(dest, infos, [IsGitPath], dest + rel)
  {
    var q := dest + rel;
    forall i | 0 <= i < |infos| && !Excluded([IsGitPath], infos[i])
      ensures !IsPrefix(q, JoinPath(dest, infos[i]))
    {
      assert infos[i] in infos;
      var rel' :| LandsAt(fs, src, dest, infos[i], rel');
      RenderHasPrefix(rel', fs[src + rel'].Dir?, ".git");
      assert rel'[0] != rel[0];
      assert (dest + rel')[|dest|] == rel'[0];
      assert q[|dest|] == rel[0];
    }
  }

  lemma MkdirAllKeepsNames(fs: FS, p: Path)
    requires NamesValid(fs) && ValidNames(p)
    ensures NamesValid(MkdirAll(fs, p).fs)
  {
    var m := MkdirAll(fs, p).fs;
    forall q | q in m ensures ValidNames(q) {
      if q !in fs {
        assert IsPrefix(q, p);
        assert forall i :: 0 <= i < |q| ==> q[i] == p[i];
      }
    }
  }

  /**
   * With the synchronizer's filter, CopyDir creates and changes nothing at
   * the destination of a manifest entry the filter matches.
   */
  lemma CopyDirSkipsGit(fs: FS, src: Path, dest: Path, now: int)
    requires NamesValid(fs) && ValidNames(dest) && !IsExist(fs, dest)
    requires MkdirAll(fs, dest).err.None?
    requires StatDir(MkdirAll(fs, dest).fs, src, [true]).Success?
    ensures var infos := StatDir(MkdirAll(fs, dest).fs, src, [true]).value;
            forall info :: info in infos && IsGitPath(info) ==>
              Lookup(CopyDir(fs, src, dest, [IsGitPath], now).fs, JoinPath(dest, info)) == Lookup(fs, JoinPath(dest, info))
    ensures forall rel :: rel != [] && HasPrefix(rel[0], ".git") ==>
              Lookup(CopyDir(fs, src, dest, [IsGitPath], now).fs, dest + rel) == Lookup(fs, dest + rel)
  {
    var m := MkdirAll(fs, dest).fs;
    var infos := StatDir(m, src, [true]).value;
    var filters: seq<string -> bool> := [IsGitPath];
    var o := CopyEntries(m, src, dest, infos, filters, now).fs;
    assert CopyDir(fs, src, dest, filters, now).fs == o;
    MkdirAllKeepsNames(fs, dest);
    ManifestTargets(m, src, dest);
    CopyEntriesFrame(m, src, dest, infos, filters, now);
    forall info | info in infos && IsGitPath(info)
      ensures Lookup(o, JoinPath(dest, info)) == Lookup(fs, JoinPath(dest, info))
    {
      GitEntryKept(fs, m, o, src, dest, infos, info);
    }
    forall rel | rel != [] && HasPrefix(rel[0], ".git")
      ensures Lookup(o, dest + rel) == Lookup(fs, dest + rel)
    {
      GitTargetUntouched(m, src, dest, infos, rel);
      assert !IsPrefix(dest + rel, dest);
    }
  }

  /** One excluded entry of CopyDirSkipsGit. */
  lemma GitEntryKept(fs: FS, m: FS, o: FS, src: Path, dest: Path, infos: seq<string>, info: string)
    requires forall q :: q in m && q !in fs ==> IsPrefix(q, dest)
    requires forall q :: q in fs ==> q in m && m[q] == fs[q]
    requires forall q :: !Touches(dest, infos, [IsGitPath], q) ==> Lookup(o, q) == Lookup(m, q)
    requires forall i :: i in infos ==> exists rel :: LandsAt(m, src, dest, i, rel)
    requires info in infos && IsGitPath(info)
    ensures Lookup(o, JoinPath(dest, info)) == Lookup(fs, JoinPath(dest, info))
  {
    var rel :| LandsAt(m, src, dest, info, rel);
    RenderHasPrefix(rel, m[src + rel].Dir?, ".git");
    GitTargetUntouched(m, src, dest, infos, rel);
    assert !IsPrefix(dest + rel, dest);
  }

  /** GitFilter matches top-level ".git*" entries only, never a nested one. */
  lemma GitFilterTopLevel(rel: seq<string>, isDir: bool)
    requires ValidNames(rel) && rel != []
    ensures IsGitPath(Render(rel, isDir)) <==> HasPrefix(rel[0], ".git")
  {
    RenderHasPrefix(rel, isDir, ".git");
  }

  /** IsPrefix(q, a + b) for q not a prefix of a means a is a prefix of q. */
  lemma PrefixOfExtension(q: Path, a: Path, b: seq<string>)
    requires IsPrefix(q, a + b) && !IsPrefix(q, a)
    ensures IsPrefix(a, q)
  {
    assert q[..|a|] == (a + b)[..|q|][..|a|];
  }

  /** For well-named trees, CopyDir writes nothing outside dest and its ancestors. */
  lemma CopyDirWritesUnderDest(fs: FS, src: Path, dest: Path, filters: seq<string -> bool>, now: int)
    requires NamesValid(fs) && ValidNames(dest)
    ensures forall q :: !IsPrefix(q, dest) && !IsPrefix(dest, q) ==>
              Lookup(CopyDir(fs, src, dest, filters, now).fs, q) == Lookup(fs, q)
  {
    if !IsExist(fs, dest) {
      var m := MkdirAll(fs, dest);
      if m.err.None? && StatDir(m.fs, src, [true]).Success? {
        var infos := StatDir(m.fs, src, [true]).value;
        MkdirAllKeepsNames(fs, dest);
        ManifestTargets(m.fs, src, dest);
        CopyEntriesFrame(m.fs, src, dest, infos, filters, now);
        forall q | !IsPrefix(q, dest) && !IsPrefix(dest, q)
          ensures Lookup(CopyDir(fs, src, dest, filters, now).fs, q) == Lookup(fs, q)
        {
          forall i | 0 <= i < |infos| && !Excluded(filters, infos[i])
            ensures !IsPrefix(q, JoinPath(dest, infos[i]))
          {
            assert infos[i] in infos;
            var rel :| LandsAt(m.fs, src, dest, infos[i], rel);
            if IsPrefix(q, dest + rel) { PrefixOfExtension(q, dest, rel); }
          }
          assert !Touches(dest, infos, filters, q);
        }
      }
    }
  }

  // ---------------------------------------------------------------------
  // The copy mirrors the source

  /** An existing path that no entry of the loop lands on keeps its entry. */
  lemma {:induction false} CopyEntriesKeeps(fs: FS, src: Path, dest: Path, infos: seq<string>,
                                            filters: seq<string -> bool>, now: int, q: Path)
    requires q in fs
    requires forall info :: info in infos && !Excluded(filters, info) ==> JoinPath(dest, info) != q
    ensures var o := CopyEntries(fs, src, dest, infos, filters, now);
            q in o.fs && o.fs[q] == fs[q]
    decreases |infos|
  {
    if infos != [] {
      assert forall info :: info in infos[1..] ==> info in infos;
      if Excluded(filters, infos[0]) {
        CopyEntriesKeeps(fs, src, dest, infos[1..], filters, now, q);
      } else {
        var e := CopyEntry(fs, src, dest, infos[0], now);
        if e.err.None? {
          CopyEntriesKeeps(e.fs, src, dest, infos[1..], filters, now, q);
        }
      }
    }
  }

  /** For well-named trees, a successful CopyDir leaves dest a directory. */
  lemma CopyDirLeavesDestDir(fs: FS, src: Path, dest: Path, filters: seq<string -> bool>, now: int)
    requires NamesValid(fs) && ValidNames(dest)
    requires CopyDir(fs, src, dest, filters, now).err.None?
    ensures IsDir(CopyDir(fs, src, dest, filters, now).fs, dest)
  {
    var m := MkdirAll(fs, dest).fs;
    var infos := StatDir(m, src, [true]).value;
    MkdirAllKeepsNames(fs, dest);
    ManifestTargets(m, src, dest);
    forall info | info in infos && !Excluded(filters, info) ensures JoinPath(dest, info) != dest {
      var rel :| LandsAt(m, src, dest, info, rel);
      assert |dest + rel| > |dest|;
    }
    CopyEntriesKeeps(m, src, dest, infos, filters, now, dest);
  }

  /**
   * The entries of the loop are apart: no destination lies at or below a
   * source, and two entries land on the same path only when they are equal.
   */
  ghost predicate Separate(src: Path, dest: Path, infos: seq<string>, filters: seq<string -> bool>) {
    forall a, b :: a in infos && b in infos && !Excluded(filters, a) && !Excluded(filters, b) ==>
      && !IsPrefix(JoinPath(src, b), JoinPath(dest, a))
      && (JoinPath(dest, a) == JoinPath(dest, b) ==> a == b)
  }

  /** Later entries of the loop keep what an earlier entry materialised. */
  lemma {:induction false} CopyEntriesKeepCopied(fs: FS, src: Path, dest: Path, infos: seq<string>,
                                                 filters: seq<string -> bool>, now: int, info: string)
    requires CopyEntries(fs, src, dest, infos, filters, now).err.None?
    requires Copied(fs, JoinPath(dest, info), info, Lookup(fs, JoinPath(src, info)))
    requires forall b :: b in infos && !Excluded(filters, b) ==>
               && !IsPrefix(JoinPath(src, info), JoinPath(dest, b))
               && (JoinPath(dest, b) == JoinPath(dest, info) ==> b == info)
    ensures var o := CopyEntries(fs, src, dest, infos, filters, now);
            Copied(o.fs, JoinPath(dest, info), info, Lookup(fs, JoinPath(src, info)))
    decreases |infos|
  {
    if infos != [] {
      assert forall b :: b in infos[1..] ==> b in infos;
      if Excluded(filters, infos[0]) {
        CopyEntriesKeepCopied(fs, src, dest, infos[1..], filters, now, info);
      } else {
        var e := CopyEntry(fs, src, dest, infos[0], now);
        var t := JoinPath(dest, info);
        var sp := JoinPath(src, info);
        assert Lookup(e.fs, sp) == Lookup(fs, sp);
        if JoinPath(dest, infos[0]) == t {
          assert infos[0] == info;
          assert sp != t by { assert t[..|t|] == t; }
        }
        assert Copied(e.fs, t, info, Lookup(e.fs, sp));
        CopyEntriesKeepCopied(e.fs, src, dest, infos[1..], filters, now, info);
      }
    }
  }

  lemma SeparateSub(src: Path, dest: Path, infos: seq<string>, sub: seq<string>, filters: seq<string -> bool>)
    requires Separate(src, dest, infos, filters) && forall b :: b in sub ==> b in infos
    ensures Separate(src, dest, sub, filters)
  {
  }

  /** What Separate says about one entry `x` against all the others. */
  lemma SeparateOne(src: Path, dest: Path, infos: seq<string>, filters: seq<string -> bool>, x: string)
    requires Separate(src, dest, infos, filters) && x in infos && !Excluded(filters, x)
    ensures JoinPath(src, x) != JoinPath(dest, x)
    ensures forall b :: b in infos && !Excluded(filters, b) ==>
              && !IsPrefix(JoinPath(src, x), JoinPath(dest, b))
              && !IsPrefix(JoinPath(src, b), JoinPath(dest, x))
              && (JoinPath(dest, b) == JoinPath(dest, x) ==> b == x)
  {
    var t := JoinPath(dest, x);
    assert t[..|t|] == t;
  }

  /**
   * When the loop succeeds over separate entries, each entry it lets through
   * holds a directory or exactly what its source held before the loop.
   */
  lemma {:induction false} CopyEntriesCopies(fs: FS, src: Path, dest: Path, infos: seq<string>,
                                             filters: seq<string -> bool>, now: int)
    requires CopyEntries(fs, src, dest, infos, filters, now).err.None?
    requires Separate(src, dest, infos, filters)
    ensures var o := CopyEntries(fs, src, dest, infos, filters, now);
            forall info :: info in infos && !Excluded(filters, info) ==>
              Copied(o.fs, JoinPath(dest, info), info, Lookup(fs, JoinPath(src, info)))
    decreases |infos|
  {
    if infos != [] {
      var rest := infos[1..];
      assert forall b :: b in infos ==> b == infos[0] || b in rest by { assert infos == [infos[0]] + rest; }
      SeparateSub(src, dest, infos, rest, filters);
      if Excluded(filters, infos[0]) {
        CopyEntriesCopies(fs, src, dest, rest, filters, now);
      } else {
        var x := infos[0];
        var e := CopyEntry(fs, src, dest, x, now);
        SeparateOne(src, dest, infos, filters, x);
        CopyEntriesCopies(e.fs, src, dest, rest, filters, now);
        CopyEntriesKeepCopied(e.fs, src, dest, rest, filters, now, x);
      }
    }
  }

  /** Paths that extend two incomparable paths are incomparable. */
  lemma PrefixCross(a: Path, b: Path, x: seq<string>, y: seq<string>)
    requires IsPrefix(a + x, b + y)
    ensures IsPrefix(a, b) || IsPrefix(b, a)
  {
    if |a| <= |b| {
      assert b[..|a|] == (b + y)[..|a + x|][..|a|];
    } else {
      assert a[..|b|] == (a + x)[..|b|];
    }
  }

  /** The manifest of a well-named tree, copied between incomparable paths, is separate. */
  lemma ManifestSeparate(fs: FS, src: Path, dest: Path, infos: seq<string>, filters: seq<string -> bool>)
    requires forall info :: info in infos ==> exists rel :: LandsAt(fs, src, dest, info, rel)
    requires !IsPrefix(src, dest) && !IsPrefix(dest, src)
    ensures Separate(src, dest, infos, filters)
  {
    forall a, b | a in infos && b in infos && !Excluded(filters, a) && !Excluded(filters, b)
      ensures && !IsPrefix(JoinPath(src, b), JoinPath(dest, a))
              && (JoinPath(dest, a) == JoinPath(dest, b) ==> a == b)
    {
      var ra :| LandsAt(fs, src, dest, a, ra);
      var rb :| LandsAt(fs, src, dest, b, rb);
      RenderRoundTrip(src, rb, fs[src + rb].Dir?);
      if IsPrefix(src + rb, dest + ra) { PrefixCross(src, dest, rb, ra); }
      if dest + ra == dest + rb {
        assert ra == (dest + ra)[|dest|..] && rb == (dest + rb)[|dest|..];
      }
    }
  }

  /** One visible source entry of CopyDirMirrors. */
  lemma MirrorOne(fs: FS, m: FS, o: FS, src: Path, dest: Path, infos: seq<string>,
                  filters: seq<string -> bool>, rel: seq<string>)
    requires Tree(m) && IsDir(m, src) && NamesValid(fs)
    requires forall q :: q in fs ==> q in m && m[q] == fs[q]
    requires StatDir(m, src, [true]) == Success(infos)
    requires forall info :: info in infos && !Excluded(filters, info) ==>
               Copied(o, JoinPath(dest, info), info, Lookup(m, JoinPath(src, info)))
    requires Visible(fs, src, rel, true, false) && !Excluded(filters, Render(rel, fs[src + rel].Dir?))
    ensures dest + rel in o && o[dest + rel] == (if fs[src + rel].Dir? then Dir else fs[src + rel])
  {
    var isDir := fs[src + rel].Dir?;
    assert Visible(m, src, rel, true, false);
    StatDirComplete(m, src, [true], rel);
    assert ValidNames(rel) by {
      assert ValidNames(src + rel);
      assert forall i :: 0 <= i < |rel| ==> rel[i] == (src + rel)[|src| + i];
    }
    RenderRoundTrip(dest, rel, isDir);
    RenderRoundTrip(src, rel, isDir);
    RenderHasSuffix(rel, isDir);
  }

  /**
   * With every key and dest well named, and source and destination apart,
   * a successful CopyDir mirrors the tree: every visible entry below src
   * that the filter keeps is at the same relative place below dest, as a
   * directory, as a file with the source's bytes, mtime and mode, or as a
   * link with the source's target.
   */
  lemma CopyDirMirrors(fs: FS, src: Path, dest: Path, filters: seq<string -> bool>, now: int)
    requires Tree(fs) && NamesValid(fs) && ValidNames(dest)
    requires !IsPrefix(src, dest) && !IsPrefix(dest, src)
    requires CopyDir(fs, src, dest, filters, now).err.None?
    ensures var o := CopyDir(fs, src, dest, filters, now).fs;
            forall rel :: Visible(fs, src, rel, true, false) && !Excluded(filters, Render(rel, fs[src + rel].Dir?)) ==>
              dest + rel in o && o[dest + rel] == (if fs[src + rel].Dir? then Dir else fs[src + rel])
  {
    var m := MkdirAll(fs, dest).fs;
    var infos := StatDir(m, src, [true]).value;
    var o := CopyEntries(m, src, dest, infos, filters, now).fs;
    assert CopyDir(fs, src, dest, filters, now).fs == o;
    MkdirAllKeepsTree(fs, dest);
    MkdirAllKeepsNames(fs, dest);
    ManifestTargets(m, src, dest);
    ManifestSeparate(m, src, dest, infos, filters);
    CopyEntriesCopies(m, src, dest, infos, filters, now);
    forall rel | Visible(fs, src, rel, true, false) && !Excluded(filters, Render(rel, fs[src + rel].Dir?))
      ensures dest + rel in o && o[dest + rel] == (if fs[src + rel].Dir? then Dir else fs[src + rel])
    {
      MirrorOne(fs, m, o, src, dest, infos, filters, rel);
    }
  }

  /** In a tree, nothing lies strictly below a missing path. */
  lemma NothingBelowMissing(fs: FS, d: Path, q: Path)
    requires Tree(fs) && d !in fs && IsPrefix(d, q) && q != d
    ensures q !in fs
  {
    if q in fs {
      AncestorIsDir(fs, q, |d|);
    }
  }

  /** An extension of a path that is not a prefix of `d` is not one either. */
  lemma ExtensionNotPrefix(a: Path, x: seq<string>, d: Path)
    requires !IsPrefix(a, d)
    ensures !IsPrefix(a + x, d)
  {
  }

  /** A path below src + rel' that lies in the tree is at src + rel'[..k]. */
  lemma VisiblePrefix(fs: FS, src: Path, rel': seq<string>, k: nat)
    requires Tree(fs) && Visible(fs, src, rel', true, false) && 1 <= k <= |rel'|
    ensures Visible(fs, src, rel'[..k], true, false)
  {
    var rel := rel'[..k];
    if k < |rel'| {
      AncestorIsDir(fs, src + rel', |src| + k);
      PrefixOfBelow(src, rel', k);
    } else {
      assert rel == rel';
    }
    assert forall i :: 0 <= i < |rel| ==> rel[i] == rel'[i];
  }

  /** One path of CopyDirOnlyMirrors. */
  lemma OnlyMirrorsOne(fs: FS, m: FS, o: FS, src: Path, dest: Path, infos: seq<string>, q: Path)
    requires Tree(fs) && !IsExist(fs, dest) && !IsPrefix(src, dest)
    requires forall q :: q in m && q !in fs ==> IsPrefix(q, dest)
    requires forall q :: q in fs ==> q in m && m[q] == fs[q]
    requires forall q :: !Touches(dest, infos, [IsGitPath], q) ==> Lookup(o, q) == Lookup(m, q)
    requires forall i :: i in infos ==> exists rel :: LandsAt(m, src, dest, i, rel)
    requires q in o && IsPrefix(dest, q) && q != dest
    ensures exists rel :: && Visible(fs, src, rel, true, false)
                          && !Excluded([IsGitPath], Render(rel, fs[src + rel].Dir?))
                          && q == dest + rel
  {
    NothingBelowMissing(fs, dest, q);
    assert !IsPrefix(q, dest);
    assert Lookup(o, q) != Lookup(m, q);
    assert Touches(dest, infos, [IsGitPath], q);
    var i :| 0 <= i < |infos| && !Excluded([IsGitPath], infos[i]) && IsPrefix(q, JoinPath(dest, infos[i]));
    assert infos[i] in infos;
    var rel' :| LandsAt(m, src, dest, infos[i], rel');
    ExtensionNotPrefix(src, rel', dest);
    MirrorPrefix(fs, src, dest, rel', q);
  }

  /** A path strictly between dest and dest + rel' is the place of a prefix of rel'. */
  lemma MirrorPrefix(fs: FS, src: Path, dest: Path, rel': seq<string>, q: Path)
    requires Tree(fs) && Visible(fs, src, rel', true, false) && ValidNames(rel')
    requires !Excluded([IsGitPath], Render(rel', fs[src + rel'].Dir?))
    requires IsPrefix(dest, q) && q != dest && IsPrefix(q, dest + rel')
    ensures exists rel :: && Visible(fs, src, rel, true, false)
                          && !Excluded([IsGitPath], Render(rel, fs[src + rel].Dir?))
                          && q == dest + rel
  {
    var k := |q| - |dest|;
    var rel := rel'[..k];
    assert q == dest + rel by {
      assert q[..|dest|] == dest;
      assert forall j :: |dest| <= j < |q| ==> q[j] == (dest + rel')[..|q|][j] == rel'[j - |dest|];
    }
    VisiblePrefix(fs, src, rel', k);
    assert ValidNames(rel) by { assert forall j :: 0 <= j < |rel| ==> rel[j] == rel'[j]; }
    GitFilterTopLevel(rel', fs[src + rel'].Dir?);
    GitFilterTopLevel(rel, fs[src + rel].Dir?);
  }

  /**
   * With the synchronizer's filter, a successful CopyDir puts nothing else
   * below dest: every path strictly below it is the place of a visible
   * source entry the filter keeps, so no ".git" entry and nothing that was
   * not in the source appears there.
   */
  lemma CopyDirOnlyMirrors(fs: FS, src: Path, dest: Path, now: int)
    requires Tree(fs) && NamesValid(fs) && ValidNames(dest)
    requires !IsPrefix(src, dest) && !IsPrefix(dest, src)
    requires CopyDir(fs, src, dest, [IsGitPath], now).err.None?
    ensures var o := CopyDir(fs, src, dest, [IsGitPath], now).fs;
            forall q :: q in o && IsPrefix(dest, q) && q != dest ==>
              exists rel :: && Visible(fs, src, rel, true, false)
                            && !Excluded([IsGitPath], Render(rel, fs[src + rel].Dir?))
                            && q == dest + rel
  {
    var m := MkdirAll(fs, dest).fs;
    var infos := StatDir(m, src, [true]).value;
    var filters: seq<string -> bool> := [IsGitPath];
    var o := CopyEntries(m, src, dest, infos, filters, now).fs;
    assert CopyDir(fs, src, dest, filters, now).fs == o;
    MkdirAllKeepsNames(fs, dest);
    ManifestTargets(m, src, dest);
    CopyEntriesFrame(m, src, dest, infos, filters, now);
    forall q | q in o && IsPrefix(dest, q) && q != dest
      ensures exists rel :: && Visible(fs, src, rel, true, false)
                            && !Excluded([IsGitPath], Render(rel, fs[src + rel].Dir?))
                            && q == dest + rel
    {
      OnlyMirrorsOne(fs, m, o, src, dest, infos, q);
    }
  }

  // ---------------------------------------------------------------------
  // A well-formed copy succeeds

  /** `q` lies strictly below `base`, under one of `names`. */
  predicate Under(q: Path, base: Path, names: seq<Name>) {
    |q| > |base| && q[..|base|] == base && q[|base|] in names
  }

  /** What the walk of `d` lists for its child `n`, directories included. */
  ghost function Front(fs: FS, d: Path, rec: string, n: Name): seq<string>
    requires d in fs && d + [n] in fs
  {
    var relPath := Join(rec, n);
    if IsJunk(n) then []
    else if fs[d + [n]].Dir? then [relPath + "/"] + Walk(fs, d + [n], relPath, ReadDir(fs, d + [n]), true, false)
    else [relPath]
  }

  lemma WalkSplit(fs: FS, d: Path, rec: string, names: seq<Name>)
    requires d in fs && names != []
    requires forall i :: 0 <= i < |names| ==> d + [names[i]] in fs
    ensures Walk(fs, d, rec, names, true, false) == Front(fs, d, rec, names[0]) + Walk(fs, d, rec, names[1..], true, false)
  {
    WalkUnfold(fs, d, rec, names, true, false);
  }

  /** The copy loop over two manifests in a row. */
  lemma {:induction false} CopyEntriesAppend(fs: FS, src: Path, dest: Path, xs: seq<string>, ys: seq<string>,
                                             filters: seq<string -> bool>, now: int)
    ensures var o := CopyEntries(fs, src, dest, xs, filters, now);
            CopyEntries(fs, src, dest, xs + ys, filters, now)
            == if o.err.Some? then o else CopyEntries(o.fs, src, dest, ys, filters, now)
    decreases |xs|
  {
    if xs == [] {
      assert xs + ys == ys;
    } else {
      assert (xs + ys)[0] == xs[0] && (xs + ys)[1..] == xs[1..] + ys;
      if Excluded(filters, xs[0]) {
        CopyEntriesAppend(fs, src, dest, xs[1..], ys, filters, now);
      } else {
        var e := CopyEntry(fs, src, dest, xs[0], now);
        if e.err.None? {
          CopyEntriesAppend(e.fs, src, dest, xs[1..], ys, filters, now);
        }
      }
    }
  }

  /** A path under a child of `base + [n]` lies under `n` in `base`. */
  lemma UnderNested(q: Path, base: Path, n: Name, names: seq<Name>)
    ensures Under(q, base + [n], names) ==> Under(q, base, [n])
  {
    if Under(q, base + [n], names) {
      assert q[..|base|] == q[..|base + [n]|][..|base|];
    }
  }

  /** What does not change while the walk of src + P is copied to dest + P. */
  ghost predicate CopySetting(fs0: FS, src: Path, dest: Path, P: Path, names: seq<Name>) {
    && Tree(fs0) && NamesValid(fs0) && ValidNames(dest)
    && !IsPrefix(src, dest) && !IsPrefix(dest, src)
    && IsDir(fs0, src + P)
    && (forall i :: 0 <= i < |names| ==> src + P + [names[i]] in fs0)
    && (forall i, j :: 0 <= i < j < |names| ==> names[i] != names[j])
    && (P == [] || !HasPrefix(P[0], ".git"))
  }

  /**
   * The state before copying the entries of `names`: dest + P is a
   * directory, nothing lies below it under those names yet, and the source
   * side is as it was.
   */
  ghost predicate CopyReady(fs0: FS, c: FS, src: Path, dest: Path, P: Path, names: seq<Name>) {
    && IsDir(c, dest + P)
    && (forall q :: q in c ==> !Under(q, dest + P, names))
    && (forall q :: IsPrefix(src, q) ==> Lookup(c, q) == Lookup(fs0, q))
  }

  /** The copy of one child's entries succeeded and changed nothing outside its subtree. */
  ghost predicate FrontCopied(c: FS, o: Outcome, dest: Path, P: Path, n: Name) {
    o.err.None? && forall q :: !Under(q, dest + P, [n]) ==> Lookup(o.fs, q) == Lookup(c, q)
  }

  /** No path below src lies under dest. */
  lemma SourceNotUnder(src: Path, dest: Path, base: seq<string>, names: seq<Name>, q: Path)
    requires !IsPrefix(src, dest) && !IsPrefix(dest, src) && IsPrefix(src, q)
    ensures !Under(q, dest + base, names)
  {
    assert Under(q, dest + base, names) ==> IsPrefix(dest, q) by {
      if Under(q, dest + base, names) { assert q[..|dest|] == q[..|dest + base|][..|dest|]; }
    }
    PrefixesOfOne(src, dest, q);
  }

  /** Two prefixes of one path are prefixes of each other. */
  lemma PrefixesOfOne(a: Path, b: Path, q: Path)
    requires IsPrefix(a, q)
    ensures IsPrefix(b, q) ==> IsPrefix(a, b) || IsPrefix(b, a)
  {
    if IsPrefix(b, q) {
      if |a| <= |b| { assert b[..|a|] == q[..|a|]; } else { assert a[..|b|] == q[..|b|]; }
    }
  }

  /** The names, manifest string and targets of the entry for child `n` of src + P. */
  lemma FrontNames(fs0: FS, src: Path, dest: Path, P: Path, n: Name, isDir: bool)
    requires NamesValid(fs0) && src + P + [n] in fs0
    ensures ValidNames(P + [n])
    ensures Join(JoinAll("", P), n) + (if isDir then "/" else "") == Render(P + [n], isDir)
    ensures JoinPath(dest, Render(P + [n], isDir)) == dest + P + [n]
    ensures JoinPath(src, Render(P + [n], isDir)) == src + P + [n]
    ensures HasSuffix(Render(P + [n], isDir), "/") <==> isDir
    ensures IsGitPath(Render(P + [n], isDir)) <==> HasPrefix((P + [n])[0], ".git")
  {
    var q := src + P + [n];
    assert ValidNames(P + [n]) by {
      assert ValidNames(q);
      assert forall i :: 0 <= i < |P + [n]| ==> (P + [n])[i] == q[|src| + i];
    }
    JoinAllSnoc("", P, n);
    RenderRoundTrip(dest, P + [n], isDir);
    RenderRoundTrip(src, P + [n], isDir);
    RenderHasSuffix(P + [n], isDir);
    GitFilterTopLevel(P + [n], isDir);
  }

  /** Everything listed for a top-level ".git*" child is left out by the filter. */
  lemma GitFrontExcluded(fs0: FS, d: Path, n: Name)
    requires d in fs0 && d + [n] in fs0 && ValidName(n) && HasPrefix(n, ".git")
    ensures forall e :: e in Front(fs0, d, "", n) ==> Excluded([IsGitPath], e)
  {
    assert Join("", n) == n;
    assert IsGitPath(n);
    if fs0[d + [n]].Dir? && !IsJunk(n) {
      GitWalkExcluded(fs0, d + [n], n);
      assert IsGitPath(n + "/");
    }
  }

  /** The walk of a ".git*" directory lists only strings the filter matches. */
  lemma GitWalkExcluded(fs0: FS, c: Path, n: Name)
    requires c in fs0 && ValidName(n) && HasPrefix(n, ".git")
    ensures forall e :: e in Walk(fs0, c, n, ReadDir(fs0, c), true, false) ==> IsGitPath(e)
  {
    assert IsGitPath(n);
    WalkUnder(fs0, c, n, true, false);
    forall e | e in Walk(fs0, c, n, ReadDir(fs0, c), true, false) ensures IsGitPath(e) {
      assert n + e[|n|..] == e;
    }
  }

  /** A missing path whose parent is a directory is made by MkdirAll in one step. */
  lemma MkdirAllOneStep(fs: FS, p: Path)
    requires p !in fs && p != [] && IsDir(fs, Parent(p))
    ensures MkdirAll(fs, p) == Outcome(None, fs[p := Dir])
  {
  }

  /** Copying the entries of the first child, a file or a link. */
  lemma CopyFrontFile(fs0: FS, c: FS, src: Path, dest: Path, P: Path, names: seq<Name>, now: int)
    requires CopySetting(fs0, src, dest, P, names) && CopyReady(fs0, c, src, dest, P, names)
    requires names != [] && !IsJunk(names[0]) && !fs0[src + P + [names[0]]].Dir?
    ensures FrontCopied(c, CopyEntries(c, src, dest, Front(fs0, src + P, JoinAll("", P), names[0]), [IsGitPath], now),
                        dest, P, names[0])
  {
    var n := names[0];
    var info := Render(P + [n], false);
    var t := dest + P + [n];
    var sp := src + P + [n];
    FrontNames(fs0, src, dest, P, n, false);
    assert Join(JoinAll("", P), n) + "" == Join(JoinAll("", P), n);
    assert Front(fs0, src + P, JoinAll("", P), n) == [info];
    if !Excluded([IsGitPath], info) {
      assert Lookup(c, sp) == Lookup(fs0, sp) by { assert IsPrefix(src, sp); }
      assert Under(t, dest + P, names);
      assert Parent(t) == dest + P;
      assert sp != t by { SourceNotUnder(src, dest, P, names, sp); }
      var e := CopyEntry(c, src, dest, info, now);
      assert e == CopyFile(c, sp, t, now);
      assert e.err.None?;
      assert CopyEntries(c, src, dest, [info], [IsGitPath], now) == CopyEntries(e.fs, src, dest, [], [IsGitPath], now);
    }
  }

  /** Copying the entries of the first child, a directory, and of its subtree. */
  lemma {:induction false} CopyFrontDir(fs0: FS, c: FS, src: Path, dest: Path, P: Path, names: seq<Name>, now: int)
    requires CopySetting(fs0, src, dest, P, names) && CopyReady(fs0, c, src, dest, P, names)
    requires names != [] && !IsJunk(names[0]) && fs0[src + P + [names[0]]].Dir?
    ensures FrontCopied(c, CopyEntries(c, src, dest, Front(fs0, src + P, JoinAll("", P), names[0]), [IsGitPath], now),
                        dest, P, names[0])
    decreases |Below(fs0, src + P)|, 0, 1
  {
    var n := names[0];
    var d := src + P;
    FrontNames(fs0, src, dest, P, n, true);
    var sub := Walk(fs0, d + [n], Join(JoinAll("", P), n), ReadDir(fs0, d + [n]), true, false);
    assert Front(fs0, d, JoinAll("", P), n) == [Render(P + [n], true)] + sub;
    if P == [] && HasPrefix(n, ".git") {
      GitFrontExcluded(fs0, d, n);
    } else {
      CopyDirChild(fs0, c, src, dest, P, names, now);
    }
  }

  /** The state after making the first child's directory is ready for its own walk. */
  lemma SubReady(fs0: FS, c: FS, src: Path, dest: Path, P: Path, names: seq<Name>)
    requires CopySetting(fs0, src, dest, P, names) && CopyReady(fs0, c, src, dest, P, names)
    requires names != [] && fs0[src + P + [names[0]]].Dir?
    requires P == [] ==> !HasPrefix(names[0], ".git")
    ensures var n := names[0];
            && src + (P + [n]) == src + P + [n] && dest + (P + [n]) == dest + P + [n]
            && CopySetting(fs0, src, dest, P + [n], ReadDir(fs0, src + P + [n]))
            && CopyReady(fs0, c[dest + P + [n] := Dir], src, dest, P + [n], ReadDir(fs0, src + P + [n]))
  {
    var n := names[0];
    var t := dest + P + [n];
    var names' := ReadDir(fs0, src + P + [n]);
    var c1 := c[t := Dir];
    assert src + (P + [n]) == src + P + [n] && dest + (P + [n]) == t;
    forall q | q in c1 ensures !Under(q, t, names') {
      UnderNested(q, dest + P, n, names');
    }
    forall q | IsPrefix(src, q) ensures Lookup(c1, q) == Lookup(fs0, q) {
      SourceNotUnder(src, dest, P, names, q);
      assert Under(t, dest + P, names);
    }
  }

  /** CopyFrontDir for a child the filter keeps: make its directory, then copy its walk. */
  lemma {:induction false} CopyDirChild(fs0: FS, c: FS, src: Path, dest: Path, P: Path, names: seq<Name>, now: int)
    requires CopySetting(fs0, src, dest, P, names) && CopyReady(fs0, c, src, dest, P, names)
    requires names != [] && !IsJunk(names[0]) && fs0[src + P + [names[0]]].Dir?
    requires P == [] ==> !HasPrefix(names[0], ".git")
    ensures var n := names[0];
            var sub := Walk(fs0, src + P + [n], Join(JoinAll("", P), n), ReadDir(fs0, src + P + [n]), true, false);
            FrontCopied(c, CopyEntries(c, src, dest, [Render(P + [n], true)] + sub, [IsGitPath], now), dest, P, n)
    decreases |Below(fs0, src + P)|, 0, 0
  {
    var n := names[0];
    var d := src + P;
    var P' := P + [n];
    var info := Render(P', true);
    var t := dest + P + [n];
    FrontNames(fs0, src, dest, P, n, true);
    var names' := ReadDir(fs0, d + [n]);
    var sub := Walk(fs0, d + [n], Join(JoinAll("", P), n), names', true, false);
    assert !Excluded([IsGitPath], info);
    assert Under(t, dest + P, names);
    assert Parent(t) == dest + P;
    MkdirAllOneStep(c, t);
    var c1 := c[t := Dir];
    assert CopyEntries(c, src, dest, [info] + sub, [IsGitPath], now) == CopyEntries(c1, src, dest, sub, [IsGitPath], now) by {
      assert ([info] + sub)[0] == info && ([info] + sub)[1..] == sub;
    }
    BelowShrinks(fs0, d, n);
    JoinAllSnoc("", P, n);
    SubReady(fs0, c, src, dest, P, names);
    CopyWalk(fs0, c1, src, dest, P', names', now);
    var o := CopyEntries(c1, src, dest, sub, [IsGitPath], now);
    SubtreeFrame(c, o.fs, dest + P, n, names');
  }

  /** What the copy of a child's subtree leaves alone, seen from the parent's level. */
  lemma SubtreeFrame(c: FS, o: FS, base: Path, n: Name, names: seq<Name>)
    requires forall q :: !Under(q, base + [n], names) ==> Lookup(o, q) == Lookup(c[base + [n] := Dir], q)
    ensures forall q :: !Under(q, base, [n]) ==> Lookup(o, q) == Lookup(c, q)
  {
    forall q | !Under(q, base, [n]) ensures Lookup(o, q) == Lookup(c, q) {
      UnderNested(q, base, n, names);
    }
  }

  /**
   * The copy loop over the walk of src + P, started in a state where dest + P
   * is a directory with nothing yet under the listed names, succeeds and
   * changes nothing outside their subtrees.
   */
  lemma {:induction false} CopyWalk(fs0: FS, c: FS, src: Path, dest: Path, P: Path, names: seq<Name>, now: int)
    requires CopySetting(fs0, src, dest, P, names) && CopyReady(fs0, c, src, dest, P, names)
    ensures var o := CopyEntries(c, src, dest, Walk(fs0, src + P, JoinAll("", P), names, true, false), [IsGitPath], now);
            && o.err.None?
            && forall q :: !Under(q, dest + P, names) ==> Lookup(o.fs, q) == Lookup(c, q)
    decreases |Below(fs0, src + P)|, |names|, 1
  {
    if names != [] {
      var d := src + P;
      var rec := JoinAll("", P);
      var n := names[0];
      var rest := names[1..];
      WalkSplit(fs0, d, rec, names);
      var front := Front(fs0, d, rec, n);
      CopyEntriesAppend(c, src, dest, front, Walk(fs0, d, rec, rest, true, false), [IsGitPath], now);
      if IsJunk(n) {
        assert front == [];
      } else if fs0[d + [n]].Dir? {
        CopyFrontDir(fs0, c, src, dest, P, names, now);
      } else {
        CopyFrontFile(fs0, c, src, dest, P, names, now);
      }
      var c1 := CopyEntries(c, src, dest, front, [IsGitPath], now).fs;
      RestReady(fs0, c, c1, src, dest, P, names);
      CopyWalk(fs0, c1, src, dest, P, rest, now);
    }
  }

  /** After the first child is copied, the rest of the listing is ready to copy. */
  lemma RestReady(fs0: FS, c: FS, c1: FS, src: Path, dest: Path, P: Path, names: seq<Name>)
    requires CopySetting(fs0, src, dest, P, names) && CopyReady(fs0, c, src, dest, P, names) && names != []
    requires forall q :: !Under(q, dest + P, [names[0]]) ==> Lookup(c1, q) == Lookup(c, q)
    ensures CopySetting(fs0, src, dest, P, names[1..]) && CopyReady(fs0, c1, src, dest, P, names[1..])
    ensures forall q :: !Under(q, dest + P, names) ==> Lookup(c1, q) == Lookup(c, q)
  {
    var rest := names[1..];
    assert forall i :: 0 <= i < |rest| ==> rest[i] == names[i + 1];
    assert names[0] !in rest;
    forall q | q in c1 ensures !Under(q, dest + P, rest) {
      if !Under(q, dest + P, [names[0]]) { assert Lookup(c1, q) == Lookup(c, q); }
    }
    forall q | IsPrefix(src, q) ensures Lookup(c1, q) == Lookup(fs0, q) {
      SourceNotUnder(src, dest, P, [names[0]], q);
    }
  }

  /**
   * For a well-formed, well-named tree with the source a directory, a
   * destination that does not exist yet and can be created, and the two
   * apart, CopyDir with the synchronizer's filter succeeds: every directory
   * entry comes before its subtree in the manifest, and the filter leaves
   * out whole top-level subtrees only.
   */
  lemma CopyDirSucceeds(fs: FS, src: Path, dest: Path, now: int)
    requires Tree(fs) && NamesValid(fs) && ValidNames(dest)
    requires IsDir(fs, src) && !IsExist(fs, dest) && MkdirAll(fs, dest).err.None?
    requires !IsPrefix(src, dest) && !IsPrefix(dest, src)
    ensures CopyDir(fs, src, dest, [IsGitPath], now).err.None?
  {
    var m := MkdirAll(fs, dest).fs;
    MkdirAllKeepsTree(fs, dest);
    MkdirAllKeepsNames(fs, dest);
    var names := ReadDir(m, src);
    assert src + [] == src && dest + [] == dest;
    assert JoinAll("", []) == "";
    assert CopySetting(m, src, dest, [], names);
    assert CopyReady(m, m, src, dest, [], names) by {
      forall q | q in m ensures !Under(q, dest, names) {
        if Under(q, dest, names) {
          NothingBelowMissing(fs, dest, q);
        }
      }
    }
    CopyWalk(m, m, src, dest, [], names, now);
    assert StatDir(m, src, [true]) == Success(Walk(m, src, "", names, true, false));
  }
}
