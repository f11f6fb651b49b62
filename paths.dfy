/**
 * Slash-separated path strings and their component form.
 *
 * An absolute path of the abstract filesystem is the sequence of its
 * components below the root; the manifest of a directory walk is a list of
 * slash-separated strings relative to the walked directory.
 */
module Paths {
  /** One component of a path (a directory entry name). */
  type Name = string

  /** An absolute path: the components below the root, outermost first. */
  type Path = seq<Name>

  /** A name a directory can hold: non-empty, no separator, not "." or "..". */
  predicate ValidName(n: string) {
    n != "" && n != "." && n != ".." && '/' !in n
  }

  predicate ValidNames(p: seq<string>) {
    forall i :: 0 <= i < |p| ==> ValidName(p[i])
  }

  /** `p` is `q` or an ancestor of `q`. */
  predicate IsPrefix(p: Path, q: Path) {
    |p| <= |q| && q[..|p|] == p
  }

  /** strings.HasPrefix */
  predicate HasPrefix(s: string, pre: string) {
    |pre| <= |s| && s[..|pre|] == pre
  }

  /** strings.HasSuffix */
  predicate HasSuffix(s: string, suf: string) {
    |suf| <= |s| && s[|s| - |suf|..] == suf
  }

  /** strings.Contains */
  predicate Contains(s: string, sub: string)
    decreases |s|
  {
    HasPrefix(s, sub) || (s != [] && Contains(s[1..], sub))
  }

  /** path.Join(dir, name) for a clean relative `dir` and a valid `name`. */
  function Join(dir: string, name: string): (r: string)
    ensures '/' !in name ==> Split(r) == (if dir == "" then [name] else Split(dir) + [name])
  {
    var r := if dir == "" then name else dir + "/" + name;
    assert '/' !in name ==> Split(r) == (if dir == "" then [name] else Split(dir) + [name]) by {
      if '/' !in name {
        SplitNoSeparator(name);
        if dir != "" { SplitAppend(dir, name); }
      }
    }
    r
  }

  /** Joins the components `rel` onto `dir`, one path.Join at a time. */
  function JoinAll(dir: string, rel: seq<string>): string
    decreases |rel|
  {
    if rel == [] then dir else JoinAll(Join(dir, rel[0]), rel[1..])
  }

  /**
   * The manifest string of the relative path `rel`: its components joined
   * by "/", with a trailing "/" when it names a directory.
   */
  function Render(rel: seq<string>, isDir: bool): string {
    JoinAll("", rel) + (if isDir then "/" else "")
  }

  /** strings.Split(s, "/"): every separator splits, empty pieces kept. */
  function Split(s: string): (r: seq<string>)
    ensures |r| >= 1
    decreases |s|
  {
    if s == [] then [""]
    else
      var rest := Split(s[1..]);
      if s[0] == '/' then [""] + rest else [[s[0]] + rest[0]] + rest[1..]
  }

  function Parent(p: Path): Path {
    if p == [] then [] else p[..|p| - 1]
  }

  /**
   * Applies the pieces of a relative path to `base` the way path.Clean does
   * for an absolute base: empty pieces and "." are dropped, ".." removes the
   * last component (and stays at the root).
   */
  function Resolve(base: Path, pieces: seq<string>): Path
    decreases |pieces|
  {
    if pieces == [] then base
    else if pieces[0] == "" || pieces[0] == "." then Resolve(base, pieces[1..])
    else if pieces[0] == ".." then Resolve(Parent(base), pieces[1..])
    else Resolve(base + [pieces[0]], pieces[1..])
  }

  /** filepath.Join(base, rel) for an absolute, clean `base`. */
  function JoinPath(base: Path, rel: string): (r: Path)
    ensures ValidNames(Split(rel)) ==> r == base + Split(rel)
  {
    var pieces := Split(rel);
    assert ValidNames(pieces) ==> Resolve(base, pieces) == base + pieces by {
      if ValidNames(pieces) { ResolveValid(base, pieces); }
    }
    Resolve(base, pieces)
  }

  // ---------------------------------------------------------------------
  // Splitting and joining

  lemma {:induction false} SplitNoSeparator(s: string)
    requires '/' !in s
    ensures Split(s) == [s]
    decreases |s|
  {
    if s != [] {
      SplitNoSeparator(s[1..]);
      assert [s[0]] + s[1..] == s;
    }
  }

  lemma {:induction false} SplitAppend(a: string, b: string)
    ensures Split(a + "/" + b) == Split(a) + Split(b)
    decreases |a|
  {
    if a == [] {
      assert a + "/" + b == "/" + b;
      assert ("/" + b)[1..] == b;
    } else {
      assert (a + "/" + b)[1..] == a[1..] + "/" + b;
      SplitAppend(a[1..], b);
    }
  }

  lemma {:induction false} ResolveValid(base: Path, rel: seq<string>)
    requires ValidNames(rel)
    ensures Resolve(base, rel) == base + rel
    decreases |rel|
  {
    if rel != [] {
      assert ValidNames(rel[1..]) by {
        forall i | 0 <= i < |rel[1..]| ensures ValidName(rel[1..][i]) {
          assert rel[1..][i] == rel[i + 1];
        }
      }
      assert ValidName(rel[0]);
      ResolveValid(base + [rel[0]], rel[1..]);
      assert base + [rel[0]] + rel[1..] == base + rel;
    }
  }

  lemma ResolveSkipsEmpty(base: Path, pieces: seq<string>)
    ensures Resolve(base, pieces + [""]) == Resolve(base, pieces)
    decreases |pieces|
  {
    if pieces != [] {
      assert (pieces + [""])[1..] == pieces[1..] + [""];
      ResolveSkipsEmpty(if pieces[0] == "" || pieces[0] == "." then base
                        else if pieces[0] == ".." then Parent(base)
                        else base + [pieces[0]], pieces[1..]);
    }
  }

  /** The pieces of a joined path are the pieces of its start followed by the joined names. */
  lemma {:induction false} SplitJoinAll(dir: string, rel: seq<string>)
    requires dir != ""
    requires forall i :: 0 <= i < |rel| ==> '/' !in rel[i]
    ensures Split(JoinAll(dir, rel)) == Split(dir) + rel
    decreases |rel|
  {
    if rel != [] {
      var d' := Join(dir, rel[0]);
      assert Split(d') == Split(dir) + [rel[0]] by { assert '/' !in rel[0]; }
      assert forall i :: 0 <= i < |rel[1..]| ==> '/' !in rel[1..][i] by {
        assert forall i :: 0 <= i < |rel[1..]| ==> rel[1..][i] == rel[i + 1];
      }
      assert JoinAll(dir, rel) == JoinAll(d', rel[1..]);
      SplitJoinAll(d', rel[1..]);
      ConsAgain(Split(dir), rel);
    }
  }

  lemma ConsAgain(a: seq<string>, rel: seq<string>)
    requires rel != []
    ensures a + [rel[0]] + rel[1..] == a + rel
  {
    assert rel == [rel[0]] + rel[1..];
  }

  /** A manifest string determines the relative path it was made from. */
  lemma RenderRoundTrip(base: Path, rel: seq<string>, isDir: bool)
    requires ValidNames(rel)
    ensures JoinPath(base, Render(rel, isDir)) == base + rel
  {
    var s := JoinAll("", rel);
    var pieces := if rel == [] then [""] else rel;
    assert Split(s) == pieces by {
      if rel != [] {
        assert ValidName(rel[0]);
        SplitJoinAll(rel[0], rel[1..]) by {
          forall i | 0 <= i < |rel[1..]| ensures '/' !in rel[1..][i] {
            assert rel[1..][i] == rel[i + 1];
            assert ValidName(rel[i + 1]);
          }
        }
        SplitNoSeparator(rel[0]);
        assert [rel[0]] + rel[1..] == rel;
      }
    }
    assert Resolve(base, pieces) == base + rel by {
      if rel == [] {
        assert Resolve(base, [""]) == Resolve(base, []);
      } else {
        ResolveValid(base, rel);
      }
    }
    if isDir {
      SplitAppend(s, "");
      assert s + "/" == s + "/" + "";
      assert Split(s + "/") == pieces + [""];
      ResolveSkipsEmpty(base, pieces);
    } else {
      assert s + "" == s;
    }
  }

  // ---------------------------------------------------------------------
  // Shape of joined strings

  lemma {:induction false} JoinAllSnoc(dir: string, rel: seq<string>, n: string)
    ensures JoinAll(dir, rel + [n]) == Join(JoinAll(dir, rel), n)
    decreases |rel|
  {
    if rel == [] {
      assert ([] + [n])[1..] == [];
    } else {
      assert (rel + [n])[0] == rel[0];
      assert (rel + [n])[1..] == rel[1..] + [n];
      JoinAllSnoc(Join(dir, rel[0]), rel[1..], n);
    }
  }

  /** What follows `dir` in a joined path is empty or starts with a separator. */
  lemma {:induction false} JoinAllExtends(dir: string, rel: seq<string>)
    requires dir != ""
    ensures HasPrefix(JoinAll(dir, rel), dir)
    ensures |JoinAll(dir, rel)| > |dir| ==> JoinAll(dir, rel)[|dir|] == '/'
    ensures rel != [] ==> |JoinAll(dir, rel)| > |dir|
    decreases |rel|
  {
    if rel != [] {
      var d' := Join(dir, rel[0]);
      assert d' == dir + "/" + rel[0];
      JoinAllExtends(d', rel[1..]);
      assert JoinAll(dir, rel)[..|d'|] == d';
      assert JoinAll(dir, rel)[..|dir|] == d'[..|dir|];
    }
  }

  /**
   * For a separator-free prefix, a manifest string starts with it exactly
   * when the FIRST component does: nested components are never matched.
   */
  lemma RenderHasPrefix(rel: seq<string>, isDir: bool, pre: string)
    requires ValidNames(rel) && rel != []
    requires '/' !in pre
    ensures HasPrefix(Render(rel, isDir), pre) <==> HasPrefix(rel[0], pre)
  {
    var n := rel[0];
    assert ValidName(n);
    var j := JoinAll(n, rel[1..]);
    assert JoinAll("", rel) == j;
    JoinAllExtends(n, rel[1..]);
    var s := Render(rel, isDir);
    assert s == j + (if isDir then "/" else "");
    assert s[..|n|] == n;
    assert |s| > |n| ==> s[|n|] == '/' by {
      if |s| > |n| {
        if |j| > |n| { assert s[|n|] == j[|n|]; } else { assert |j| == |n|; assert isDir; }
      }
    }
    if |pre| <= |n| {
      assert s[..|pre|] == n[..|pre|];
    }
  }

  /** A manifest string ends with "/" exactly when it names a directory. */
  lemma RenderHasSuffix(rel: seq<string>, isDir: bool)
    requires ValidNames(rel) && rel != []
    ensures HasSuffix(Render(rel, isDir), "/") <==> isDir
  {
    var last := rel[|rel| - 1];
    assert ValidName(last);
    assert rel == rel[..|rel| - 1] + [last];
    JoinAllSnoc("", rel[..|rel| - 1], last);
    var j := JoinAll("", rel);
    var init := JoinAll("", rel[..|rel| - 1]);
    assert j == Join(init, last);
    assert j[|j| - 1] == last[|last| - 1] by {
      if init != "" { assert j == init + "/" + last; }
    }
    assert last[|last| - 1] in last;
    var s := Render(rel, isDir);
    if isDir {
      assert s == j + "/";
      assert s[|s| - 1..] == "/";
    } else {
      assert s == j;
      assert s[|s| - 1..] == [j[|j| - 1]];
    }
  }

  lemma JoinAllNonEmpty(dir: string, rel: seq<string>)
    requires rel != [] && rel[|rel| - 1] != ""
    ensures JoinAll(dir, rel) != ""
  {
    var last := rel[|rel| - 1];
    assert rel == rel[..|rel| - 1] + [last];
    JoinAllSnoc(dir, rel[..|rel| - 1], last);
  }
}
