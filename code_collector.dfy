/**
 * Which files the code-reference generator collects: the filters of
 * scripts/generate_full_code_reference.mjs and its recursive `collect` walk.
 */
module CodeCollector {
  import opened Wrappers
  import opened Text
  import opened Paths
  import opened FileTree

  const IncludeDirs: seq<string> := ["src", "server", "tests", "lib", "scripts"]
  const IncludeFiles: seq<string> := ["uno.config.js", "vite.config.js", "package.json"]
  const BinaryExts: seq<string> := [
    ".png", ".jpg", ".jpeg", ".gif", ".bmp", ".pdf", ".zip", ".ico",
    ".ttf", ".otf", ".woff", ".woff2", ".map", ".jar", ".exe", ".dylib"
  ]
  /** Directory names that exclude every path running through them. */
  const ExcludedSegments: seq<string> := ["node_modules", ".vercel", "dist", "build", ".temp", ".cache", ".git"]

  /** `isExcludedDir(rel)`: some segment of `rel` is an excluded name. */
  predicate IsExcludedDir(rel: string) {
    exists e :: e in ExcludedSegments && e in Split(rel)
  }

  /** `isBinary(file)`: the lowercased extension is a binary one. */
  predicate IsBinary(file: string) {
    ToLower(ExtName(file)) in BinaryExts
  }

  /** `rel` lies inside an included directory: it starts with that directory and a separator. */
  predicate InIncludedDir(rel: string) {
    exists d :: d in IncludeDirs && StartsWith(rel, d + [Sep])
  }

  /** `rel` is one of the named configuration files or a `tsconfig*.json`. */
  predicate IsIncludedFile(rel: string) {
    rel in IncludeFiles || (StartsWith(rel, "tsconfig") && EndsWith(rel, ".json"))
  }

  /** The test `collect` applies to an entry found at `l.rel` that is not a directory. */
  predicate Collects(l: Leaf) {
    !l.node.Unlisted? &&
    !IsExcludedDir(l.rel) && !IsBinary(l.node.name) && !EndsWith(l.node.name, ".lock") &&
    (InIncludedDir(l.rel) || IsIncludedFile(l.rel))
  }

  /**
   * An unlisted directory that `collect` enters: its path has no excluded
   * segment, so neither has any directory above it.
   */
  predicate Stops(l: Leaf) {
    l.node.Unlisted? && !IsExcludedDir(l.rel)
  }

  /** The paths `collect(root)` returns, in walk order, when it returns. */
  function CollectedPaths(tree: seq<Node>): seq<string> {
    KeptPaths(Leaves(tree, [], []), Collects)
  }

  /**
   * `collect(dir)`, given what `readdir(dir)` listed: skips every entry whose
   * path has an excluded segment, descends into directories and keeps the
   * files that pass the filters.  The first directory it enters whose
   * `readdir` rejects ends the walk with that directory's path; otherwise the
   * result is exactly the accepted leaves, in walk order, so pruning a
   * directory loses nothing the filters would keep.
   */
  method Collect(entries: seq<Node>, dir: string, ghost anc: seq<string>) returns (r: Result<seq<string>>)
    requires WellFormed(entries)
    ensures r == Walk(entries, dir, anc, Stops, Collects)
    decreases entries
  {
    var files := [];
    for i := 0 to |entries|
      invariant KeptPaths(Leaves(entries[..i], dir, anc), Stops) == []
      invariant files == KeptPaths(Leaves(entries[..i], dir, anc), Collects)
    {
      var entry := entries[i];
      var rel := Join(dir, entry.name);
      KeptStep(entries, i, dir, anc, Collects);
      KeptStep(entries, i, dir, anc, Stops);
      if IsExcludedDir(rel) {
        ExcludedBelow(entry, dir, anc);
        KeptPathsNone(NodeLeaves(entry, dir, anc), Collects);
        KeptPathsNone(NodeLeaves(entry, dir, anc), Stops);
      } else if entry.Dir? {
        var sub := Collect(entry.children, rel, anc + [rel]);
        if sub.Err? {
          KeptFirstAt(entries, i, dir, anc, Stops);
          return Err(sub.path);
        }
        files := files + sub.value;
      } else if entry.Unlisted? {
        KeptSingle(entry, dir, anc, Stops);
        KeptFirstAt(entries, i, dir, anc, Stops);
        return Err(rel);
      } else if !IsBinary(entry.name) && !EndsWith(entry.name, ".lock") {
        KeptSingle(entry, dir, anc, Collects);
        KeptSingle(entry, dir, anc, Stops);
        var inDir := InIncludedDir(rel);
        var isFile := IsIncludedFile(rel);
        if inDir || isFile {
          files := files + [rel];
        }
      } else {
        KeptSingle(entry, dir, anc, Collects);
        KeptSingle(entry, dir, anc, Stops);
      }
    }
    assert entries[..|entries|] == entries;
    r := Ok(files);
  }

  /** An excluded segment is inherited: every path below an excluded directory is excluded. */
  lemma ExcludedBelow(n: Node, dir: string, anc: seq<string>)
    requires NodeOk(n) && IsExcludedDir(Join(dir, n.name))
    ensures forall l :: l in NodeLeaves(n, dir, anc) ==> IsExcludedDir(l.rel)
  {
    var rel := Join(dir, n.name);
    var e :| e in ExcludedSegments && e in Split(rel);
    forall l | l in NodeLeaves(n, dir, anc) ensures IsExcludedDir(l.rel) {
      NodeLeafShape(n, dir, anc, l);
      assert Segs(rel) == Split(rel);
      var k :| 0 <= k < |Segs(rel)| && Segs(rel)[k] == e;
      assert Segs(l.rel)[k] == e;
      assert l.rel != [];
    }
  }

  /** A path is excluded wherever in it an excluded directory name appears as a segment. */
  lemma ExcludedAnywhere(a: string, e: string, b: string)
    requires e in ExcludedSegments
    ensures IsExcludedDir(e) && IsExcludedDir(a + [Sep] + e) && IsExcludedDir(e + [Sep] + b)
    ensures IsExcludedDir(a + [Sep] + e + [Sep] + b)
  {
    assert Sep !in e;
    assert Split(e) == [e];
    SplitAppend(a, e);
    SplitAppend(e, b);
    SplitAppend(a + [Sep] + e, b);
    assert e in Split(a + [Sep] + e);
    assert e in Split(a + [Sep] + e) + Split(b);
  }

  lemma DeepExclusionExample()
    ensures IsExcludedDir("a/b/node_modules/c/d.js")
  {
    assert "a/b/node_modules/c/d.js" == "a/b" + [Sep] + "node_modules" + [Sep] + "c/d.js";
    ExcludedAnywhere("a/b", "node_modules", "c/d.js");
  }

  /** Splitting `x + "/" + rest` starts with the segment `x`. */
  lemma {:induction false} UnsplitCons(x: string, t: seq<string>)
    requires |t| >= 1
    ensures Unsplit([x] + t) == x + [Sep] + Unsplit(t)
  {
    if |t| > 1 {
      assert ([x] + t)[..|[x] + t| - 1] == [x] + t[..|t| - 1];
      UnsplitCons(x, t[..|t| - 1]);
    }
  }

  /**
   * Inclusion by directory is separator-aware: `rel` is inside an included
   * directory exactly when its first segment is that directory and more
   * segments follow.
   */
  lemma InIncludedDirSegments(rel: string)
    ensures InIncludedDir(rel) <==> |Split(rel)| >= 2 && Split(rel)[0] in IncludeDirs
  {
    if InIncludedDir(rel) {
      InIncludedDirFirst(rel);
    }
    if |Split(rel)| >= 2 && Split(rel)[0] in IncludeDirs {
      FirstSegmentIncluded(rel);
    }
  }

  lemma InIncludedDirFirst(rel: string)
    requires InIncludedDir(rel)
    ensures |Split(rel)| >= 2 && Split(rel)[0] in IncludeDirs
  {
    var d :| d in IncludeDirs && StartsWith(rel, d + [Sep]);
    assert Sep !in d;
    var rest := rel[|d| + 1..];
    assert rel == d + [Sep] + rest;
    SplitAppend(d, rest);
    assert Split(d) == [d];
  }

  lemma FirstSegmentIncluded(rel: string)
    requires |Split(rel)| >= 2 && Split(rel)[0] in IncludeDirs
    ensures InIncludedDir(rel)
  {
    var segs := Split(rel);
    var d := segs[0];
    UnsplitSplit(rel);
    assert segs == [d] + segs[1..];
    UnsplitCons(d, segs[1..]);
    assert rel == d + [Sep] + Unsplit(segs[1..]);
    assert StartsWith(rel, d + [Sep]);
  }

  lemma PrefixAt(s: string, p: string, k: nat)
    requires k < |p|
    ensures StartsWith(s, p) ==> k < |s| && s[k] == p[k]
  {
    if StartsWith(s, p) {
      assert s[..|p|][k] == s[k];
    }
  }

  /** Only the first characters tell the included directories apart from `s`. */
  lemma NotInIncludedDir(s: string)
    requires |s| >= 4 && s[0] != 't' && s[0] != 'l'
    requires s[0] == 's' ==> s[1] != 'e' && s[1] != 'c' && (s[1] == 'r' ==> s[2] != 'c' || s[3] != Sep)
    ensures !InIncludedDir(s)
  {
    forall d | d in IncludeDirs ensures !StartsWith(s, d + [Sep]) {
      PrefixAt(s, d + [Sep], 0);
      PrefixAt(s, d + [Sep], 1);
      PrefixAt(s, d + [Sep], 2);
      PrefixAt(s, d + [Sep], 3);
    }
  }

  lemma PrefixBoundaryExample()
    ensures InIncludedDir("src/foo.js")
    ensures !InIncludedDir("src2/foo.js") && !InIncludedDir("srcfoo/a.js")
  {
    assert "src" in IncludeDirs && StartsWith("src/foo.js", "src" + [Sep]);
    NotInIncludedDir("src2/foo.js");
    NotInIncludedDir("srcfoo/a.js");
  }

  /** The paths `collect(root)` returns are pairwise distinct. */
  lemma CollectedDistinct(tree: seq<Node>)
    requires WellFormed(tree)
    ensures forall i, j :: 0 <= i < j < |CollectedPaths(tree)| ==> CollectedPaths(tree)[i] != CollectedPaths(tree)[j]
  {
    LeavesDistinct(tree, [], []);
    KeptPathsDistinct(Leaves(tree, [], []), Collects);
  }

  /**
   * A path is collected exactly when it is the path of an entry that is not a
   * directory, with no excluded segment, not binary, not a lock file, and
   * either inside an included directory or an included file.
   */
  lemma CollectedExactly(tree: seq<Node>, p: string)
    ensures p in CollectedPaths(tree) <==>
      exists l :: l in Leaves(tree, [], []) && l.rel == p && !l.node.Unlisted? &&
        !IsExcludedDir(p) && !IsBinary(l.node.name) && !EndsWith(l.node.name, ".lock") &&
        (InIncludedDir(p) || IsIncludedFile(p))
  {
    KeptPathsMember(Leaves(tree, [], []), Collects, p);
  }

  /** The generator's own output, docs/full_code_reference.md, is never collected. */
  lemma OutputNotCollected()
    ensures !InIncludedDir("docs/full_code_reference.md") && !IsIncludedFile("docs/full_code_reference.md")
  {
    NotInIncludedDir("docs/full_code_reference.md");
    PrefixAt("docs/full_code_reference.md", "tsconfig", 0);
  }
}
