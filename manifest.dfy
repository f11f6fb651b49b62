/**
 * The directory manifest: a depth-first, pre-order list of paths relative
 * to a root directory, directories marked with a trailing "/", with every
 * name containing ".DS_Store" left out together with its subtree.
 */
module Manifest {
  import opened Wrappers
  import opened Paths
  import opened Files

  /** Operating-system junk that the walk skips. */
  predicate IsJunk(name: string) {
    Contains(name, ".DS_Store")
  }

  /** The existing paths at or below `d`. */
  function Below(fs: FS, d: Path): set<Path> {
    set q | q in fs.Keys && IsPrefix(d, q)
  }

  lemma BelowShrinks(fs: FS, d: Path, n: Name)
    requires d in fs && d + [n] in fs
    ensures |Below(fs, d + [n])| < |Below(fs, d)|
  {
    var c := d + [n];
    forall q | q in Below(fs, c) ensures q in Below(fs, d) {
      assert q[..|d|] == q[..|c|][..|d|];
    }
    var a, b := Below(fs, c), Below(fs, d);
    assert d in b - a;
    assert b == a + (b - a) && a * (b - a) == {};
    assert |b - a| >= 1 by { assert {d} <= b - a; }
  }

  /** The manifest string of `rel`, joined onto the relative prefix `rec`. */
  function EntryName(rec: string, rel: seq<string>, isDir: bool): string {
    JoinAll(rec, rel) + (if isDir then "/" else "")
  }

  /**
   * The loop of statDir over the listing `names` of `dirPath`: each name that
   * is not junk contributes its own entry and, for a directory, the entries
   * of the directory's own walk right after it.
   */
  function Walk(fs: FS, dirPath: Path, recPath: string, names: seq<Name>,
                includeDir: bool, isDirOnly: bool): (r: seq<string>)
    requires dirPath in fs
    requires forall i :: 0 <= i < |names| ==> dirPath + [names[i]] in fs
    ensures forall e :: e in r ==> EntryOf(fs, dirPath, recPath, e, includeDir, isDirOnly)
    decreases |Below(fs, dirPath)|, |names|
  {
    if names == [] then []
    else
      var name := names[0];
      var rest := Walk(fs, dirPath, recPath, names[1..], includeDir, isDirOnly);
      if IsJunk(name) then rest
      else
        var relPath := Join(recPath, name);
        var curPath := dirPath + [name];
        assert JoinAll(recPath, [name]) == relPath;
        if fs[curPath].Dir? then
          BelowShrinks(fs, dirPath, name);
          var sub := Walk(fs, curPath, relPath, ReadDir(fs, curPath), includeDir, isDirOnly);
          assert forall e :: e in sub ==> EntryOf(fs, dirPath, recPath, e, includeDir, isDirOnly) by {
            forall e | e in sub ensures EntryOf(fs, dirPath, recPath, e, includeDir, isDirOnly) {
              LiftEntry(fs, dirPath, recPath, name, e, includeDir, isDirOnly);
            }
          }
          assert includeDir ==> EntryOf(fs, dirPath, recPath, relPath + "/", includeDir, isDirOnly) by {
            if includeDir { assert Visible(fs, dirPath, [name], includeDir, isDirOnly); }
          }
          (if includeDir then [relPath + "/"] else []) + sub + rest
        else if !isDirOnly then
          assert EntryOf(fs, dirPath, recPath, relPath, includeDir, isDirOnly) by {
            assert Visible(fs, dirPath, [name], includeDir, isDirOnly);
            assert EntryName(recPath, [name], false) == relPath;
          }
          [relPath] + rest
        else rest
  }

  /** The contribution of the first name of a listing to the walk. */
  lemma WalkUnfold(fs: FS, dirPath: Path, recPath: string, names: seq<Name>,
                   includeDir: bool, isDirOnly: bool)
    requires dirPath in fs && names != []
    requires forall i :: 0 <= i < |names| ==> dirPath + [names[i]] in fs
    ensures var name := names[0];
            var relPath := Join(recPath, name);
            var curPath := dirPath + [name];
            var rest := Walk(fs, dirPath, recPath, names[1..], includeDir, isDirOnly);
            Walk(fs, dirPath, recPath, names, includeDir, isDirOnly)
            == if IsJunk(name) then rest
               else if fs[curPath].Dir? then
                 (if includeDir then [relPath + "/"] else [])
                 + Walk(fs, curPath, relPath, ReadDir(fs, curPath), includeDir, isDirOnly)
                 + rest
               else if !isDirOnly then [relPath] + rest
               else rest
  {
  }

  /**
   * statDir: opens and lists `dirPath`, then walks its entries. It fails
   * exactly when the directory cannot be opened and listed; otherwise it
   * lists only visible entries below `dirPath` and, in a tree, all of them.
   */
  function StatDirAt(fs: FS, dirPath: Path, recPath: string,
                     includeDir: bool, isDirOnly: bool): (r: Result<seq<string>, Error>)
    ensures r.Failure? <==> !IsDir(fs, dirPath)
    ensures r.Success? ==> forall e :: e in r.value ==> EntryOf(fs, dirPath, recPath, e, includeDir, isDirOnly)
    ensures r.Success? && Tree(fs) ==>
              forall rel :: Visible(fs, dirPath, rel, includeDir, isDirOnly) ==>
                EntryName(recPath, rel, fs[dirPath + rel].Dir?) in r.value
  {
    if dirPath !in fs then Failure(NotExist(dirPath))
    else if !fs[dirPath].Dir? then Failure(NotDirectory(dirPath))
    else
      var w := Walk(fs, dirPath, recPath, ReadDir(fs, dirPath), includeDir, isDirOnly);
      assert Tree(fs) ==> forall rel :: Visible(fs, dirPath, rel, includeDir, isDirOnly) ==>
                            EntryName(recPath, rel, fs[dirPath + rel].Dir?) in w by {
        if Tree(fs) {
          forall rel | Visible(fs, dirPath, rel, includeDir, isDirOnly)
            ensures EntryName(recPath, rel, fs[dirPath + rel].Dir?) in w
          {
            FirstStep(fs, dirPath, rel);
            WalkComplete(fs, dirPath, recPath, ReadDir(fs, dirPath), rel, includeDir, isDirOnly);
          }
        }
      }
      Success(w)
  }

  /**
   * StatDir(rootPath, includeDir...): the manifest of `rootPath`, with
   * directories when the first optional flag is given and true.
   */
  function StatDir(fs: FS, rootPath: Path, includeDir: seq<bool>): (r: Result<seq<string>, Error>)
    ensures r.Failure? <==> !IsDir(fs, rootPath)
    ensures r.Failure? ==> r.error == NotADirOrMissing(rootPath)
  {
    if !IsDir(fs, rootPath) then Failure(NotADirOrMissing(rootPath))
    else
      var isIncludeDir := |includeDir| >= 1 && includeDir[0];
      StatDirAt(fs, rootPath, "", isIncludeDir, false)
  }

  // ---------------------------------------------------------------------
  // What the manifest holds

  /**
   * `rel` names an entry the walk of `d` lists: below `d`, no junk name on
   * the way, and of a kind the flags ask for.
   */
  ghost predicate Visible(fs: FS, d: Path, rel: seq<string>, includeDir: bool, isDirOnly: bool) {
    && rel != []
    && d + rel in fs
    && (forall i :: 0 <= i < |rel| ==> !IsJunk(rel[i]))
    && (if fs[d + rel].Dir? then includeDir else !isDirOnly)
  }

  ghost predicate EntryOf(fs: FS, d: Path, rec: string, e: string, includeDir: bool, isDirOnly: bool) {
    exists rel :: Visible(fs, d, rel, includeDir, isDirOnly) && e == EntryName(rec, rel, fs[d + rel].Dir?)
  }

  /** An entry of a child's walk is an entry of the parent's walk. */
  lemma LiftEntry(fs: FS, d: Path, rec: string, n: Name, e: string, includeDir: bool, isDirOnly: bool)
    requires !IsJunk(n)
    requires EntryOf(fs, d + [n], Join(rec, n), e, includeDir, isDirOnly)
    ensures EntryOf(fs, d, rec, e, includeDir, isDirOnly)
  {
    var c := d + [n];
    var rel' :| Visible(fs, c, rel', includeDir, isDirOnly) && e == EntryName(Join(rec, n), rel', fs[c + rel'].Dir?);
    var rel := [n] + rel';
    assert d + rel == c + rel';
    assert rel[1..] == rel';
    assert forall i :: 1 <= i < |rel| ==> rel[i] == rel'[i - 1];
    assert Visible(fs, d, rel, includeDir, isDirOnly);
    assert e == EntryName(rec, rel, fs[d + rel].Dir?);
  }

  lemma {:induction false} AncestorIsDir(fs: FS, q: Path, k: nat)
    requires Tree(fs) && q in fs && k < |q|
    ensures IsDir(fs, q[..k])
    decreases |q|
  {
    var p := Parent(q);
    assert IsDir(fs, p);
    if k < |p| {
      AncestorIsDir(fs, p, k);
      assert p[..k] == q[..k];
    } else {
      assert q[..k] == p;
    }
  }

  /** The first k names of a path below `d`. */
  lemma PrefixOfBelow(d: Path, rel: seq<string>, k: nat)
    requires k <= |rel|
    ensures (d + rel)[..|d| + k] == d + rel[..k]
  {
  }

  /** Facts about the first step of a path below a directory of a tree. */
  lemma FirstStep(fs: FS, d: Path, rel: seq<string>)
    requires Tree(fs) && rel != [] && d + rel in fs
    ensures d + [rel[0]] in fs
    ensures |rel| > 1 ==> IsDir(fs, d + [rel[0]]) && (d + [rel[0]]) + [rel[1]] in fs
    ensures (d + [rel[0]]) + rel[1..] == d + rel
  {
    var q := d + rel;
    assert rel[..1] == [rel[0]];
    PrefixOfBelow(d, rel, 1);
    if |rel| == 1 {
      assert q == d + [rel[0]] by { assert rel == [rel[0]]; }
    } else {
      assert IsDir(fs, d + [rel[0]]) by { AncestorIsDir(fs, q, |d| + 1); }
      assert (d + [rel[0]]) + [rel[1]] in fs by {
        assert rel[..2] == [rel[0], rel[1]];
        assert d + [rel[0], rel[1]] == (d + [rel[0]]) + [rel[1]];
        PrefixOfBelow(d, rel, 2);
        if |rel| > 2 { AncestorIsDir(fs, q, |d| + 2); } else { assert rel[..2] == rel; }
      }
    }
    assert rel == [rel[0]] + rel[1..];
  }

  /** The walk of a tree lists every visible entry whose first name it is given. */
  lemma {:induction false} WalkComplete(fs: FS, d: Path, rec: string, names: seq<Name>,
                                        rel: seq<string>, includeDir: bool, isDirOnly: bool)
    requires d in fs
    requires forall i :: 0 <= i < |names| ==> d + [names[i]] in fs
    requires Tree(fs) && Visible(fs, d, rel, includeDir, isDirOnly) && rel[0] in names
    ensures EntryName(rec, rel, fs[d + rel].Dir?) in Walk(fs, d, rec, names, includeDir, isDirOnly)
    decreases |Below(fs, d)|, |names|
  {
    var n := names[0];
    var rest := Walk(fs, d, rec, names[1..], includeDir, isDirOnly);
    if n != rel[0] {
      WalkComplete(fs, d, rec, names[1..], rel, includeDir, isDirOnly);
      assert !IsJunk(n) ==> !fs[d + [n]].Dir? ==> isDirOnly ==> Walk(fs, d, rec, names, includeDir, isDirOnly) == rest;
    } else {
      assert !IsJunk(rel[0]);
      var relPath := Join(rec, n);
      var c := d + [n];
      FirstStep(fs, d, rel);
      if |rel| == 1 {
        assert d + rel == c;
        assert JoinAll(rec, rel) == relPath;
        var w := Walk(fs, d, rec, names, includeDir, isDirOnly);
        if fs[c].Dir? {
          assert w[0] == relPath + "/";
        } else {
          assert w[0] == relPath;
          assert EntryName(rec, rel, false) == relPath + "" == relPath;
        }
      } else {
        BelowShrinks(fs, d, n);
        assert rel[1..][0] == rel[1];
        assert forall i :: 0 <= i < |rel[1..]| ==> rel[1..][i] == rel[i + 1];
        assert Visible(fs, c, rel[1..], includeDir, isDirOnly);
        WalkComplete(fs, c, relPath, ReadDir(fs, c), rel[1..], includeDir, isDirOnly);
        assert EntryName(relPath, rel[1..], fs[c + rel[1..]].Dir?)
            == EntryName(rec, rel, fs[d + rel].Dir?);
      }
    }
  }

  /**
   * StatDir yields only paths relative to the root, never the root itself,
   * and never a path with a junk name on it.
   */
  lemma StatDirSound(fs: FS, root: Path, includeDir: seq<bool>)
    requires StatDir(fs, root, includeDir).Success?
    ensures forall e :: e in StatDir(fs, root, includeDir).value ==>
              EntryOf(fs, root, "", e, |includeDir| >= 1 && includeDir[0], false)
  {
  }

  /** In a tree, StatDir lists every visible path below the root. */
  lemma StatDirComplete(fs: FS, root: Path, includeDir: seq<bool>, rel: seq<string>)
    requires Tree(fs) && IsDir(fs, root)
    requires Visible(fs, root, rel, |includeDir| >= 1 && includeDir[0], false)
    ensures StatDir(fs, root, includeDir).Success?
    ensures Render(rel, fs[root + rel].Dir?) in StatDir(fs, root, includeDir).value
  {
    assert StatDir(fs, root, includeDir) == StatDirAt(fs, root, "", |includeDir| >= 1 && includeDir[0], false);
  }

  // ---------------------------------------------------------------------
  // Pre-order

  /** `sub` occurs in `s` right after its element `i`, which is `head`. */
  predicate BlockAt(s: seq<string>, i: int, head: string, sub: seq<string>) {
    0 <= i && i + 1 + |sub| <= |s| && s[i] == head && s[i + 1..i + 1 + |sub|] == sub
  }

  lemma BlockShift(s: seq<string>, i: int, head: string, sub: seq<string>, pre: seq<string>, post: seq<string>)
    requires BlockAt(s, i, head, sub)
    ensures BlockAt(pre + s + post, |pre| + i, head, sub)
  {
    var t := pre + s + post;
    assert t[|pre| + i + 1..|pre| + i + 1 + |sub|] == s[i + 1..i + 1 + |sub|];
  }

  /** The walk of the later names is a suffix of the walk of all of them. */
  lemma WalkTail(fs: FS, d: Path, rec: string, names: seq<Name>, includeDir: bool, isDirOnly: bool)
    requires d in fs && names != []
    requires forall i :: 0 <= i < |names| ==> d + [names[i]] in fs
    ensures var w := Walk(fs, d, rec, names, includeDir, isDirOnly);
            var rest := Walk(fs, d, rec, names[1..], includeDir, isDirOnly);
            |rest| <= |w| && w == w[..|w| - |rest|] + rest
  {
    var n := names[0];
    var w := Walk(fs, d, rec, names, includeDir, isDirOnly);
    var rest := Walk(fs, d, rec, names[1..], includeDir, isDirOnly);
    var relPath := Join(rec, n);
    var c := d + [n];
    var front: seq<string> :=
      if IsJunk(n) then []
      else if fs[c].Dir? then
        (if includeDir then [relPath + "/"] else []) + Walk(fs, c, relPath, ReadDir(fs, c), includeDir, isDirOnly)
      else if !isDirOnly then [relPath]
      else [];
    assert w == front + rest by { WalkUnfold(fs, d, rec, names, includeDir, isDirOnly); }
    assert w[..|w| - |rest|] == front;
  }

  /** The walk starting at a listed directory: its entry, its own walk, then the rest. */
  lemma WalkFirstDir(fs: FS, d: Path, rec: string, names: seq<Name>, isDirOnly: bool)
    requires d in fs && names != []
    requires forall i :: 0 <= i < |names| ==> d + [names[i]] in fs
    requires !IsJunk(names[0]) && fs[d + [names[0]]].Dir?
    ensures |Below(fs, d + [names[0]])| < |Below(fs, d)|
    ensures Walk(fs, d, rec, names, true, isDirOnly)
         == [Join(rec, names[0]) + "/"]
            + Walk(fs, d + [names[0]], Join(rec, names[0]), ReadDir(fs, d + [names[0]]), true, isDirOnly)
            + Walk(fs, d, rec, names[1..], true, isDirOnly)
  {
    BelowShrinks(fs, d, names[0]);
  }

  /**
   * In the walk of a tree, a listed directory's own entry is followed at once
   * by the whole walk of that directory.
   */
  lemma {:induction false} WalkPreorder(fs: FS, d: Path, rec: string, names: seq<Name>,
                                        rel: seq<string>, isDirOnly: bool)
    requires d in fs
    requires forall i :: 0 <= i < |names| ==> d + [names[i]] in fs
    requires Tree(fs) && Visible(fs, d, rel, true, isDirOnly) && rel[0] in names
    requires fs[d + rel].Dir?
    ensures exists i :: BlockAt(Walk(fs, d, rec, names, true, isDirOnly), i, EntryName(rec, rel, true),
                                Walk(fs, d + rel, JoinAll(rec, rel), ReadDir(fs, d + rel), true, isDirOnly))
    decreases |Below(fs, d)|, |names| + 2
  {
    var n := names[0];
    var head := EntryName(rec, rel, true);
    var target := Walk(fs, d + rel, JoinAll(rec, rel), ReadDir(fs, d + rel), true, isDirOnly);
    if n != rel[0] {
      var w := Walk(fs, d, rec, names, true, isDirOnly);
      var rest := Walk(fs, d, rec, names[1..], true, isDirOnly);
      WalkPreorder(fs, d, rec, names[1..], rel, isDirOnly);
      var i :| BlockAt(rest, i, head, target);
      WalkTail(fs, d, rec, names, true, isDirOnly);
      BlockShift(rest, i, head, target, w[..|w| - |rest|], []);
      assert w[..|w| - |rest|] + rest + [] == w;
    } else {
      PreorderHere(fs, d, rec, names, rel, isDirOnly);
    }
  }

  /** WalkPreorder when the directory holding the entry is the first name listed. */
  lemma {:induction false} PreorderHere(fs: FS, d: Path, rec: string, names: seq<Name>,
                                        rel: seq<string>, isDirOnly: bool)
    requires d in fs
    requires forall i :: 0 <= i < |names| ==> d + [names[i]] in fs
    requires Tree(fs) && Visible(fs, d, rel, true, isDirOnly) && names != [] && rel[0] == names[0]
    requires fs[d + rel].Dir?
    ensures exists i :: BlockAt(Walk(fs, d, rec, names, true, isDirOnly), i, EntryName(rec, rel, true),
                                Walk(fs, d + rel, JoinAll(rec, rel), ReadDir(fs, d + rel), true, isDirOnly))
    decreases |Below(fs, d)|, 1
  {
    FirstStep(fs, d, rel);
    if |rel| == 1 {
      assert rel == [names[0]];
      PreorderChild(fs, d, rec, names, rel, isDirOnly);
    } else {
      BelowShrinks(fs, d, names[0]);
      PreorderDeeper(fs, d, rec, names, rel, isDirOnly);
    }
  }

  lemma BlockFront(h: string, sub: seq<string>, rest: seq<string>)
    ensures BlockAt([h] + sub + rest, 0, h, sub)
  {
    assert ([h] + sub + rest)[1..1 + |sub|] == sub;
  }

  lemma PreorderChild(fs: FS, d: Path, rec: string, names: seq<Name>,
                      rel: seq<string>, isDirOnly: bool)
    requires d in fs
    requires forall i :: 0 <= i < |names| ==> d + [names[i]] in fs
    requires names != [] && rel == [names[0]] && !IsJunk(names[0]) && fs[d + rel].Dir?
    ensures exists i :: BlockAt(Walk(fs, d, rec, names, true, isDirOnly), i, EntryName(rec, rel, true),
                                Walk(fs, d + rel, JoinAll(rec, rel), ReadDir(fs, d + rel), true, isDirOnly))
  {
    var n := names[0];
    var relPath := Join(rec, n);
    assert d + rel == d + [n];
    assert JoinAll(rec, rel) == relPath;
    assert EntryName(rec, rel, true) == relPath + "/";
    WalkFirstDir(fs, d, rec, names, isDirOnly);
    BlockFront(relPath + "/", Walk(fs, d + rel, relPath, ReadDir(fs, d + rel), true, isDirOnly),
               Walk(fs, d, rec, names[1..], true, isDirOnly));
  }

  lemma {:induction false} PreorderDeeper(fs: FS, d: Path, rec: string, names: seq<Name>,
                                          rel: seq<string>, isDirOnly: bool)
    requires d in fs
    requires forall i :: 0 <= i < |names| ==> d + [names[i]] in fs
    requires Tree(fs) && Visible(fs, d, rel, true, isDirOnly) && names != [] && rel[0] == names[0]
    requires |rel| > 1 && fs[d + rel].Dir?
    requires IsDir(fs, d + [rel[0]]) && (d + [rel[0]]) + [rel[1]] in fs && (d + [rel[0]]) + rel[1..] == d + rel
    requires |Below(fs, d + [names[0]])| < |Below(fs, d)|
    ensures exists i :: BlockAt(Walk(fs, d, rec, names, true, isDirOnly), i, EntryName(rec, rel, true),
                                Walk(fs, d + rel, JoinAll(rec, rel), ReadDir(fs, d + rel), true, isDirOnly))
    decreases |Below(fs, d)|, 0
  {
    var n := names[0];
    var head := EntryName(rec, rel, true);
    var target := Walk(fs, d + rel, JoinAll(rec, rel), ReadDir(fs, d + rel), true, isDirOnly);
    var relPath := Join(rec, n);
    var c := d + [n];
    var tail := rel[1..];
    WalkFirstDir(fs, d, rec, names, isDirOnly);
    var sub := Walk(fs, c, relPath, ReadDir(fs, c), true, isDirOnly);
    var rest := Walk(fs, d, rec, names[1..], true, isDirOnly);
    assert forall i :: 0 <= i < |tail| ==> tail[i] == rel[i + 1];
    assert Visible(fs, c, tail, true, isDirOnly);
    assert tail[0] == rel[1];
    WalkPreorder(fs, c, relPath, ReadDir(fs, c), tail, isDirOnly);
    assert JoinAll(relPath, tail) == JoinAll(rec, rel);
    assert EntryName(relPath, tail, true) == head;
    var i :| BlockAt(sub, i, head, target);
    BlockShift(sub, i, head, target, [relPath + "/"], rest);
  }

  /** Every entry of the walk of `d` starts with the prefix of `d` and a separator. */
  lemma WalkUnder(fs: FS, d: Path, rec: string, includeDir: bool, isDirOnly: bool)
    requires d in fs && rec != ""
    ensures forall e :: e in Walk(fs, d, rec, ReadDir(fs, d), includeDir, isDirOnly) ==> HasPrefix(e, rec + "/")
  {
    forall e | e in Walk(fs, d, rec, ReadDir(fs, d), includeDir, isDirOnly) ensures HasPrefix(e, rec + "/") {
      var rel :| Visible(fs, d, rel, includeDir, isDirOnly) && e == EntryName(rec, rel, fs[d + rel].Dir?);
      EntryNameUnder(rec, rel, fs[d + rel].Dir?);
    }
  }

  lemma EntryNameUnder(rec: string, rel: seq<string>, isDir: bool)
    requires rec != "" && rel != []
    ensures HasPrefix(EntryName(rec, rel, isDir), rec + "/")
  {
    JoinAllExtends(rec, rel);
    var j := JoinAll(rec, rel);
    var e := EntryName(rec, rel, isDir);
    assert e[..|rec| + 1] == j[..|rec| + 1];
    assert j[..|rec| + 1] == j[..|rec|] + [j[|rec|]];
  }

  /**
   * StatDir of a tree with directories included: each listed directory
   * appears as its relative path plus "/" immediately before the entries of
   * its own subtree, all of which lie under it.
   */
  lemma StatDirPreorder(fs: FS, root: Path, rel: seq<string>)
    requires Tree(fs) && NamesValid(fs) && IsDir(fs, root)
    requires Visible(fs, root, rel, true, false) && fs[root + rel].Dir?
    ensures StatDir(fs, root, [true]).Success?
    ensures var sub := StatDirAt(fs, root + rel, JoinAll("", rel), true, false);
            && sub.Success?
            && (exists i :: BlockAt(StatDir(fs, root, [true]).value, i, Render(rel, true), sub.value))
            && (forall e :: e in sub.value ==> HasPrefix(e, Render(rel, true)))
  {
    FirstStep(fs, root, rel);
    var w := Walk(fs, root, "", ReadDir(fs, root), true, false);
    var t := Walk(fs, root + rel, JoinAll("", rel), ReadDir(fs, root + rel), true, false);
    assert StatDir(fs, root, [true]) == Success(w) by {
      assert |[true]| >= 1 && [true][0];
    }
    assert StatDirAt(fs, root + rel, JoinAll("", rel), true, false) == Success(t);
    WalkPreorder(fs, root, "", ReadDir(fs, root), rel, false);
    var i :| BlockAt(w, i, EntryName("", rel, true), t);
    assert EntryName("", rel, true) == Render(rel, true);
    assert BlockAt(w, i, Render(rel, true), t);
    assert rel[|rel| - 1] != "" by {
      assert ValidNames(root + rel);
      assert (root + rel)[|root + rel| - 1] == rel[|rel| - 1];
    }
    JoinAllNonEmpty("", rel);
    WalkUnder(fs, root + rel, JoinAll("", rel), true, false);
  }
}
