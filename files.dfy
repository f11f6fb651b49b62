/**
 * The abstract filesystem the vendoring logic runs against, and the
 * operating-system primitives it calls (os.Stat, Readdir, os.MkdirAll,
 * os.Create, os.Symlink), each as a pure transition on the filesystem.
 */
module Files {
  import opened Wrappers
  import opened Paths

  /** Timestamps and permission bits are opaque numbers. */
  datatype Entry =
    | Dir
    | File(data: seq<bv8>, mtime: int, mode: nat)
    | Symlink(target: string)

  /** The whole filesystem: every existing path with its entry. */
  type FS = map<Path, Entry>

  datatype Error =
    | NotExist(path: Path)          // ENOENT
    | NotDirectory(path: Path)      // ENOTDIR
    | IsDirectory(path: Path)       // EISDIR
    | Exists(path: Path)            // EEXIST
    | LinkNotFollowed(path: Path)   // writing through a symbolic link
    | NotADirOrMissing(path: Path)  // StatDir: "not a directory or does not exist"
    | AlreadyExists(path: Path)     // CopyDir: "file or directory alreay exists"
    | ListImportsFailed(reason: string)
    | ProbeFailed(reason: string)
    | GetFailed(reason: string)

  /** What a filesystem operation returns, with the filesystem after it. */
  datatype Outcome = Outcome(err: Option<Error>, fs: FS)

  /** Permission bits os.Create gives a new file (0666; umask is not modelled). */
  const CreateMode: nat := 0x1B6

  /** IsDir: true for an existing directory, false for a file or a missing path. */
  predicate IsDir(fs: FS, p: Path)
    ensures IsDir(fs, p) ==> IsExist(fs, p)
    ensures IsDir(fs, p) <==> Lookup(fs, p) == Some(Dir)
  {
    p in fs && fs[p].Dir?
  }

  /** IsExist: whether a file or directory exists at `p`. */
  predicate IsExist(fs: FS, p: Path)
    ensures IsExist(fs, p) <==> Lookup(fs, p).Some?
  {
    p in fs
  }

  /** Every path's parent exists and is a directory. */
  ghost predicate Tree(fs: FS) {
    forall q {:trigger Parent(q)} :: q in fs && q != [] ==> Parent(q) in fs && fs[Parent(q)].Dir?
  }

  /** Every key of `fs` is made of valid names. */
  ghost predicate NamesValid(fs: FS) {
    forall q :: q in fs ==> ValidNames(q)
  }

  /** The entry at `p`, if any. */
  function Lookup(fs: FS, p: Path): Option<Entry> {
    if p in fs then Some(fs[p]) else None
  }

  // ---------------------------------------------------------------------
  // Directory listing

  /** The names directly inside `d`. */
  function Children(fs: FS, d: Path): (r: set<Name>)
    ensures forall n :: n in r <==> d + [n] in fs
  {
    var r := set q | q in fs.Keys && |q| == |d| + 1 && q[..|d|] == d :: q[|d|];
    assert forall n :: n in r ==> d + [n] in fs by {
      forall n | n in r ensures d + [n] in fs {
        var q :| q in fs.Keys && |q| == |d| + 1 && q[..|d|] == d && q[|d|] == n;
        assert q == d + [n];
      }
    }
    assert forall n :: d + [n] in fs ==> n in r by {
      forall n | d + [n] in fs ensures n in r {
        var q := d + [n];
        assert q[..|d|] == d && q[|d|] == n;
      }
    }
    r
  }

  /** Lexicographic order on names. */
  predicate LexLe(a: string, b: string)
    decreases |a|
  {
    if a == [] then true
    else if b == [] then false
    else if a[0] != b[0] then a[0] < b[0]
    else LexLe(a[1..], b[1..])
  }

  lemma LexLeTotal(a: string, b: string)
    ensures LexLe(a, b) || LexLe(b, a)
    decreases |a|
  {
    if a != [] && b != [] && a[0] == b[0] { LexLeTotal(a[1..], b[1..]); }
  }

  lemma LexLeAntisymmetric(a: string, b: string)
    requires LexLe(a, b) && LexLe(b, a)
    ensures a == b
    decreases |a|
  {
    if a != [] {
      LexLeAntisymmetric(a[1..], b[1..]);
      assert a == [a[0]] + a[1..] && b == [b[0]] + b[1..];
    }
  }

  lemma LexLeTransitive(a: string, b: string, c: string)
    requires LexLe(a, b) && LexLe(b, c)
    ensures LexLe(a, c)
    decreases |a|
  {
    if a != [] && b != [] && c != [] && a[0] == b[0] && b[0] == c[0] {
      LexLeTransitive(a[1..], b[1..], c[1..]);
    }
  }

  predicate IsLeast(m: string, s: set<string>) {
    m in s && forall x :: x in s ==> LexLe(m, x)
  }

  lemma {:induction false} LeastExists(s: set<string>)
    requires s != {}
    ensures exists m :: IsLeast(m, s)
    decreases |s|
  {
    var y :| y in s;
    var rest := s - {y};
    if rest == {} {
      assert s == {y};
      LexLeTotal(y, y);
      assert IsLeast(y, s);
    } else {
      LeastExists(rest);
      var m :| IsLeast(m, rest);
      LexLeTotal(m, y);
      if LexLe(m, y) {
        assert IsLeast(m, s);
      } else {
        forall x | x in s ensures LexLe(y, x) {
          if x == y { LexLeTotal(y, y); } else { LexLeTransitive(y, m, x); }
        }
        assert IsLeast(y, s);
      }
    }
  }

  /** The names of `s` in ascending order. */
  function SortedNames(s: set<string>): (r: seq<string>)
    ensures forall x :: x in r <==> x in s
    ensures forall i, j :: 0 <= i < j < |r| ==> r[i] != r[j] && LexLe(r[i], r[j])
    decreases |s|
  {
    if s == {} then []
    else
      LeastExists(s);
      assert forall a, b :: IsLeast(a, s) && IsLeast(b, s) ==> a == b by {
        forall a, b | IsLeast(a, s) && IsLeast(b, s) ensures a == b {
          LexLeAntisymmetric(a, b);
        }
      }
      var m :| IsLeast(m, s);
      [m] + SortedNames(s - {m})
  }

  /**
   * Readdir of the directory `d`: its children, in the order the abstract
   * tree gives them (ascending name order).
   */
  function ReadDir(fs: FS, d: Path): (r: seq<Name>)
    ensures forall n :: n in r <==> d + [n] in fs
    ensures forall i, j :: 0 <= i < j < |r| ==> r[i] != r[j] && LexLe(r[i], r[j])
  {
    SortedNames(Children(fs, d))
  }

  // ---------------------------------------------------------------------
  // Writes

  /**
   * os.MkdirAll: succeeds at once on an existing directory, fails on an
   * existing non-directory, and otherwise creates the missing parent first
   * and then `p` itself.
   */
  function MkdirAll(fs: FS, p: Path): (o: Outcome)
    ensures o.err.None? ==> IsDir(o.fs, p)
    ensures o.err.Some? ==> o.fs == fs
    ensures p in fs && !fs[p].Dir? ==> o.err == Some(NotDirectory(p))
    ensures o.err.Some? ==> exists k :: 0 <= k <= |p| && p[..k] in fs && !fs[p[..k]].Dir?
    ensures forall q :: q in fs ==> q in o.fs && o.fs[q] == fs[q]
    ensures forall q :: q in o.fs && q !in fs ==> IsPrefix(q, p) && o.fs[q] == Dir
    decreases |p|
  {
    if p in fs then
      if fs[p].Dir? then Outcome(None, fs)
      else assert p[..|p|] == p; Outcome(Some(NotDirectory(p)), fs)
    else if p == [] then
      Outcome(None, fs[p := Dir])
    else
      var o := MkdirAll(fs, Parent(p));
      if o.err.Some? then
        assert forall k :: 0 <= k <= |Parent(p)| ==> Parent(p)[..k] == p[..k];
        o
      else Outcome(None, o.fs[p := Dir])
  }

  /**
   * os.Create: truncates an existing file (keeping its permission bits),
   * creates a new empty file in an existing directory, and fails on a
   * directory, on a symbolic link, or when the parent is missing or is not
   * a directory.
   */
  function Create(fs: FS, p: Path, now: int): (o: Outcome)
    ensures o.err.Some? ==> o.fs == fs
    ensures o.err.None? <==> (p in fs && fs[p].File?) || (p !in fs && p != [] && IsDir(fs, Parent(p)))
    ensures o.err.None? ==> o.fs.Keys == fs.Keys + {p} && o.fs[p].File? && o.fs[p].data == [] && o.fs[p].mtime == now
    ensures forall q :: q in fs && q != p ==> q in o.fs && o.fs[q] == fs[q]
  {
    if p in fs then
      match fs[p]
      case Dir => Outcome(Some(IsDirectory(p)), fs)
      case Symlink(_) => Outcome(Some(LinkNotFollowed(p)), fs)
      case File(_, _, mode) => Outcome(None, fs[p := File([], now, mode)])
    else if p == [] || Parent(p) !in fs then Outcome(Some(NotExist(p)), fs)
    else if !fs[Parent(p)].Dir? then Outcome(Some(NotDirectory(p)), fs)
    else Outcome(None, fs[p := File([], now, CreateMode)])
  }

  /**
   * os.Symlink(target, p): creates a link holding the target string as it
   * is; fails when `p` exists or its parent is missing or not a directory.
   */
  function MakeSymlink(fs: FS, target: string, p: Path): (o: Outcome)
    ensures o.err.Some? ==> o.fs == fs
    ensures o.err.None? <==> p !in fs && p != [] && IsDir(fs, Parent(p))
    ensures o.err.None? ==> o.fs == fs[p := Symlink(target)]
    ensures p in fs ==> o.err == Some(Exists(p))
  {
    if p in fs then Outcome(Some(Exists(p)), fs)
    else if p == [] || Parent(p) !in fs then Outcome(Some(NotExist(p)), fs)
    else if !fs[Parent(p)].Dir? then Outcome(Some(NotDirectory(p)), fs)
    else Outcome(None, fs[p := Symlink(target)])
  }

  /** MkdirAll keeps every parent of an entry a directory. */
  lemma {:induction false} MkdirAllKeepsTree(fs: FS, p: Path)
    requires Tree(fs)
    ensures Tree(MkdirAll(fs, p).fs)
    decreases |p|
  {
    if p !in fs && p != [] {
      var o := MkdirAll(fs, Parent(p));
      MkdirAllKeepsTree(fs, Parent(p));
      if o.err.None? {
        var t := o.fs[p := Dir];
        assert p !in o.fs;
        forall q {:trigger Parent(q)} | q in t && q != [] ensures Parent(q) in t && t[Parent(q)].Dir? {
          if q != p { assert Parent(q) in o.fs && o.fs[Parent(q)].Dir?; }
        }
      }
    }
  }
}
