/**
 * POSIX paths as the scripts see them: `path.sep` is "/", a path relative to
 * the walk's root is built by `path.join` followed by `path.relative`, split
 * into segments with `split(path.sep)`, and `path.extname` gives its extension.
 */
module Paths {
  import opened Text

  const Sep: char := '/'

  /** A name `readdir` can return: non-empty and free of the separator. */
  predicate IsName(name: string) {
    name != [] && Sep !in name
  }

  /** The index of the last occurrence of `c` in `s`. */
  function LastIndexOf(s: string, c: char): (r: nat)
    requires c in s
    ensures r < |s| && s[r] == c
    ensures forall k :: r < k < |s| ==> s[k] != c
  {
    if s[|s| - 1] == c then |s| - 1 else LastIndexOf(s[..|s| - 1], c)
  }

  /** `path.relative(root, path.join(root, dir, name))`: the path of entry `name` of directory `dir`. */
  function Join(dir: string, name: string): (r: string)
    ensures dir == [] ==> r == name
    ensures dir != [] ==> |r| == |dir| + 1 + |name| && StartsWith(r, dir) && r[|dir|] == Sep && r[|dir| + 1..] == name
  {
    if dir == [] then name else dir + [Sep] + name
  }

  /** `s.split(path.sep)`. */
  function Split(s: string): (r: seq<string>)
    ensures |r| >= 1
    ensures forall i :: 0 <= i < |r| ==> Sep !in r[i]
    decreases |s|
  {
    if Sep !in s then [s]
    else
      var j := LastIndexOf(s, Sep);
      Split(s[..j]) + [s[j + 1..]]
  }

  /** Segments joined back with the separator: the inverse of `Split`. */
  function Unsplit(segs: seq<string>): (r: string)
    requires |segs| >= 1
  {
    if |segs| == 1 then segs[0] else Unsplit(segs[..|segs| - 1]) + [Sep] + segs[|segs| - 1]
  }

  lemma {:induction false} UnsplitSplit(s: string)
    ensures Unsplit(Split(s)) == s
    decreases |s|
  {
    if Sep in s {
      var j := LastIndexOf(s, Sep);
      var segs := Split(s);
      assert segs[..|segs| - 1] == Split(s[..j]);
      UnsplitSplit(s[..j]);
      assert s == s[..j] + [Sep] + s[j + 1..];
    }
  }

  lemma {:induction false} SplitUnsplit(segs: seq<string>)
    requires |segs| >= 1
    requires forall i :: 0 <= i < |segs| ==> Sep !in segs[i]
    ensures Split(Unsplit(segs)) == segs
  {
    if |segs| > 1 {
      var init, last := segs[..|segs| - 1], segs[|segs| - 1];
      SplitUnsplit(init);
      LastSeparator(Unsplit(init), last);
      assert segs == init + [last];
    }
  }

  /** In `a + "/" + b` with `b` free of separators, the last separator is the one in the middle. */
  lemma LastSeparator(a: string, b: string)
    requires Sep !in b
    ensures LastIndexOf(a + [Sep] + b, Sep) == |a|
    ensures (a + [Sep] + b)[..|a|] == a && (a + [Sep] + b)[|a| + 1..] == b
  {
    var s := a + [Sep] + b;
    var r := LastIndexOf(s, Sep);
    assert s[|a|] == Sep;
    if r > |a| {
      assert false;
    }
    assert s[..|a|] == a;
    assert s[|a| + 1..] == b;
  }

  /** Splitting a path made of two paths gives the segments of both. */
  lemma {:induction false} SplitAppend(a: string, b: string)
    ensures Split(a + [Sep] + b) == Split(a) + Split(b)
    decreases |b|
  {
    if Sep !in b {
      LastSeparator(a, b);
    } else {
      var j := LastIndexOf(b, Sep);
      var b1, b2 := b[..j], b[j + 1..];
      assert b == b1 + [Sep] + b2;
      var s := a + [Sep] + b;
      assert s == (a + [Sep] + b1) + [Sep] + b2;
      LastSeparator(a + [Sep] + b1, b2);
      SplitAppend(a, b1);
    }
  }

  /** The segments of a directory path; the walk's root, `""`, has none. */
  function Segs(dir: string): (r: seq<string>)
    ensures dir != [] ==> |r| >= 1
  {
    if dir == [] then [] else Split(dir)
  }

  /** Descending into entry `name` adds exactly one segment. */
  lemma SegsJoin(dir: string, name: string)
    requires IsName(name)
    ensures Segs(Join(dir, name)) == Segs(dir) + [name]
  {
    if dir != [] {
      LastSeparator(dir, name);
    }
  }

  /** `path.basename(p)` for a path without a trailing separator: the text after the last one. */
  function Basename(p: string): (r: string)
    ensures Sep !in r && EndsWith(p, r)
    ensures r == p || p[|p| - |r| - 1] == Sep
  {
    if Sep !in p then p else p[LastIndexOf(p, Sep) + 1..]
  }

  /**
   * `path.extname(p)` for a path without a trailing separator (every name and
   * every `Join` of a name is one): from the last `.` of the basename to its
   * end; `""` when the basename has no `.`, when its only `.` is its first
   * character (as in `.gitignore`), or when it is `..`.
   */
  function ExtName(p: string): (r: string)
    ensures r == [] || (r[0] == '.' && Sep !in r && EndsWith(p, r))
    ensures forall k :: 1 <= k < |r| ==> r[k] != '.'
    ensures '.' !in Basename(p) ==> r == []
  {
    var b := Basename(p);
    if '.' !in b then []
    else
      var i := LastIndexOf(b, '.');
      if i == 0 || b == ".." then []
      else
        EndsWithTrans(p, b, b[i..]);
        b[i..]
  }

  lemma EndsWithTrans(a: string, b: string, c: string)
    requires EndsWith(a, b) && EndsWith(b, c)
    ensures EndsWith(a, c)
  {
    assert a[|a| - |c|..] == a[|a| - |b|..][|b| - |c|..];
  }

  /** The extension of an entry's path is the extension of its name. */
  lemma ExtNameJoin(dir: string, name: string)
    requires IsName(name)
    ensures Basename(Join(dir, name)) == name
    ensures ExtName(Join(dir, name)) == ExtName(name)
  {
    if dir != [] {
      LastSeparator(dir, name);
    }
  }

  /** In `a + [c] + b` with `b` free of `c`, the last `c` is the one in the middle. */
  lemma LastIndexOfMiddle(a: string, c: char, b: string)
    requires c !in b
    ensures LastIndexOf(a + [c] + b, c) == |a|
  {
    var s := a + [c] + b;
    var r := LastIndexOf(s, c);
    assert s[|a|] == c;
    if r > |a| {
      assert false;
    }
  }

  /** A name with a non-empty stem has the extension after its last dot. */
  lemma ExtNameOf(dir: string, stem: string, ext: string)
    requires stem != [] && Sep !in stem && Sep !in ext && '.' !in ext && stem + "." + ext != ".."
    ensures ExtName(Join(dir, stem + "." + ext)) == "." + ext
  {
    var name := stem + "." + ext;
    NameOfParts(stem, ext);
    ExtNameJoin(dir, name);
    ExtNameOfName(stem, ext);
  }

  lemma NameOfParts(stem: string, ext: string)
    requires stem != [] && Sep !in stem && Sep !in ext
    ensures IsName(stem + "." + ext)
  {
    var name := stem + "." + ext;
    assert forall k :: 0 <= k < |name| ==> name[k] == (if k < |stem| then stem[k] else if k == |stem| then '.' else ext[k - |stem| - 1]);
  }

  lemma ExtNameOfName(stem: string, ext: string)
    requires stem != [] && Sep !in stem && Sep !in ext && '.' !in ext && stem + "." + ext != ".."
    ensures ExtName(stem + "." + ext) == "." + ext
  {
    var name := stem + "." + ext;
    NameOfParts(stem, ext);
    assert Basename(name) == name;
    LastIndexOfMiddle(stem, '.', ext);
    assert name[|stem|..] == "." + ext;
    assert name[|stem|] == '.';
  }

  /** A leading dot does not start an extension. */
  lemma ExtNameDotfile()
    ensures ExtName(".gitignore") == [] && ExtName(".md") == []
  {
    assert LastIndexOf(".gitignore", '.') == 0;
    assert LastIndexOf(".md", '.') == 0;
  }

  /** Only the last dot counts: `a.tar.gz` has extension `.gz`. */
  lemma ExtNameLastDot()
    ensures ExtName("a.tar" + "." + "gz") == "." + "gz"
  {
    ExtNameOfName("a.tar", "gz");
  }

  lemma ExtNameOfPath()
    ensures ExtName("src/app.js") == ".js"
  {
    assert LastIndexOf("src/app.js", Sep) == 3;
    assert Basename("src/app.js") == "app.js";
    assert LastIndexOf("app.js", '.') == 3;
  }
}
