/**
 * The docs aggregator, scripts/generate_full_docs_reference.mjs: it walks
 * the `docs` directory, keeps the markdown files that are not excluded, and
 * writes their contents, in sorted order, after a fixed three-line header.
 * Paths are relative to `docs`.
 */
module DocsReference {
  import opened Wrappers
  import opened Text
  import opened Paths
  import opened FileTree
  import opened StringOrder
  import opened SectionScan

  /** `isExcluded(rel)`: the example project, and the two generated references at the top of `docs`. */
  predicate IsExcluded(rel: string) {
    StartsWith(rel, "exampleproject") || rel == "full_code_reference.md" || rel == "full_docs_reference.md"
  }

  /**
   * The test the walk applies to a leaf found at `l.rel`: a regular file whose
   * extension is exactly `.md`, whose path is not excluded, and which does not
   * lie below a directory the walk refused to enter.
   */
  predicate Keeps(l: Leaf) {
    l.node.File? && ExtName(l.node.name) == ".md" && !IsExcluded(l.rel) &&
    forall a :: a in l.ancestors ==> !IsExcluded(a)
  }

  /**
   * An unlisted directory that the walk enters: neither it nor any directory
   * above it is excluded.
   */
  predicate Stops(l: Leaf) {
    l.node.Unlisted? && !IsExcluded(l.rel) && forall a :: a in l.ancestors ==> !IsExcluded(a)
  }

  /** The paths `collect(docsDir)` returns, in walk order, when it returns. */
  function CollectedPaths(tree: seq<Node>): seq<string> {
    KeptPaths(Leaves(tree, [], []), Keeps)
  }

  /**
   * `collect(dir)`, given what `readdir(dir)` listed: enters every directory
   * that is not excluded and keeps the regular `.md` files that are not
   * excluded; anything else (a link, a socket) is passed over.  The first
   * directory it enters whose `readdir` rejects ends the walk with that
   * directory's path; otherwise the result is exactly the accepted leaves, in
   * walk order.
   */
  method Collect(entries: seq<Node>, dir: string, ghost anc: seq<string>) returns (r: Result<seq<string>>)
    requires WellFormed(entries) && forall a :: a in anc ==> !IsExcluded(a)
    ensures r == Walk(entries, dir, anc, Stops, Keeps)
    decreases entries
  {
    var files := [];
    for i := 0 to |entries|
      invariant KeptPaths(Leaves(entries[..i], dir, anc), Stops) == []
      invariant files == KeptPaths(Leaves(entries[..i], dir, anc), Keeps)
    {
      var entry := entries[i];
      var rel := Join(dir, entry.name);
      KeptStep(entries, i, dir, anc, Keeps);
      KeptStep(entries, i, dir, anc, Stops);
      if entry.Dir? || entry.Unlisted? {
        if IsExcluded(rel) {
          PrunedBelow(entry, dir, anc);
          KeptPathsNone(NodeLeaves(entry, dir, anc), Keeps);
          KeptPathsNone(NodeLeaves(entry, dir, anc), Stops);
        } else if entry.Unlisted? {
          KeptSingle(entry, dir, anc, Stops);
          KeptFirstAt(entries, i, dir, anc, Stops);
          return Err(rel);
        } else {
          var sub := Collect(entry.children, rel, anc + [rel]);
          if sub.Err? {
            KeptFirstAt(entries, i, dir, anc, Stops);
            return Err(sub.path);
          }
          files := files + sub.value;
        }
      } else {
        KeptSingle(entry, dir, anc, Keeps);
        KeptSingle(entry, dir, anc, Stops);
        if entry.File? && ExtName(entry.name) == ".md" && !IsExcluded(rel) {
          files := files + [rel];
        }
      }
    }
    assert entries[..|entries|] == entries;
    r := Ok(files);
  }

  /** Nothing at or below a refused directory is kept or stops the walk. */
  lemma PrunedBelow(n: Node, dir: string, anc: seq<string>)
    requires NodeOk(n) && (n.Dir? || n.Unlisted?) && IsExcluded(Join(dir, n.name))
    ensures forall l :: l in NodeLeaves(n, dir, anc) ==> !Keeps(l) && !Stops(l)
  {
    forall l | l in NodeLeaves(n, dir, anc) ensures !Keeps(l) && !Stops(l) {
      NodeLeafShape(n, dir, anc, l);
    }
  }

  /**
   * A path is collected exactly when it is the path of a regular `.md` file
   * that is not excluded and has no excluded directory above it.
   */
  lemma CollectedExactly(tree: seq<Node>, p: string)
    ensures p in CollectedPaths(tree) <==>
      exists l :: l in Leaves(tree, [], []) && l.rel == p && l.node.File? && ExtName(l.node.name) == ".md" &&
        !IsExcluded(p) && forall a :: a in l.ancestors ==> !IsExcluded(a)
  {
    KeptPathsMember(Leaves(tree, [], []), Keeps, p);
  }

  /** The collected paths are pairwise distinct. */
  lemma CollectedDistinct(tree: seq<Node>)
    requires WellFormed(tree)
    ensures Distinct(CollectedPaths(tree))
  {
    LeavesDistinct(tree, [], []);
    KeptPathsDistinct(Leaves(tree, [], []), Keeps);
  }

  /** The exclusion of the example project is a plain prefix test; the generated files are excluded by full path only. */
  lemma ExclusionExamples()
    ensures IsExcluded("exampleproject") && IsExcluded("exampleproject2/x.md") && IsExcluded("exampleproject-notes.md")
    ensures IsExcluded("full_docs_reference.md") && !IsExcluded("sub/full_docs_reference.md")
  {
    assert "exampleproject2/x.md"[..14] == "exampleproject";
    assert "exampleproject-notes.md"[..14] == "exampleproject";
    assert "sub/full_docs_reference.md"[0] != "exampleproject"[0];
  }

  /** A file is kept only with the exact extension `.md`: a `.MD` file is passed over. */
  lemma ExtensionIsExact(dir: string, stem: string)
    requires stem != [] && Sep !in stem
    ensures ExtName(Join(dir, stem + "." + "MD")) == "." + "MD" != ".md"
  {
    ExtNameOf(dir, stem, "MD");
  }

  /** Whatever is kept is named `<something>.md`. */
  lemma KeptNames(l: Leaf)
    requires Keeps(l)
    ensures EndsWith(l.node.name, ".md")
  {
    MarkdownName(l.node.name);
  }

  lemma MarkdownName(name: string)
    requires ExtName(name) == ".md"
    ensures EndsWith(name, ".md")
  {
    var r := ExtName(name);
    assert EndsWith(name, r);
  }

  /**
   * A directory named like a generated file at the top of `docs` is not
   * entered, so nothing inside it is collected and its listing, even one
   * that would reject, is never asked for; a path such as
   * `full_docs_reference.md/a.md` is not excluded itself.
   */
  lemma PrunedDirectory(n: Node)
    requires NodeOk(n) && (n.Dir? || n.Unlisted?) && n.name == "full_docs_reference.md"
    ensures Walk([n], [], [], Stops, Keeps) == Ok([])
  {
    PrunedBelow(n, [], []);
    assert [n][1..] == [];
    assert Leaves([n], [], []) == NodeLeaves(n, [], []);
    KeptPathsNone(Leaves([n], [], []), Keeps);
    KeptPathsNone(Leaves([n], [], []), Stops);
  }

  lemma NestedNotExcluded()
    ensures !IsExcluded("full_docs_reference.md/a.md")
  {
    assert "full_docs_reference.md/a.md"[0] != "exampleproject"[0];
  }

  /** Links and other entries that are neither directories nor regular files are never collected. */
  lemma LinksSkipped(tree: seq<Node>, l: Leaf)
    requires l in Leaves(tree, [], []) && l.node.Link?
    ensures !Keeps(l)
  {
  }

  const Title: string := "# Full Docs Reference"
  const Summary: string := "Aggregated markdown documentation for this repository."
  const Regen: string := "Regenerate with `npm run docs:docs:regen`."

  /** The fixed header: the title and a blank line, then two lines. */
  const Preamble: string := Title + "\n\n" + Summary + "\n" + Regen + "\n"

  const Rule: string := "\n---\n# File: "

  /** What is written for one file: a rule, a heading with its path, a blank line, the untrimmed content, a line feed. */
  function Record(file: string, content: string): string {
    Rule + file + "\n\n" + content + "\n"
  }

  /**
   * A record read back: the path runs from the heading to the first line
   * terminator, which must open a blank line, and the content runs from there
   * to the final line feed.
   */
  function ParseRecord(r: string): (p: Option<(string, string)>)
    ensures p.Some? ==> Record(p.value.0, p.value.1) == r
  {
    if |r| < |Rule| + 3 || r[..|Rule|] != Rule || r[|r| - 1] != '\n' then None
    else
      var j := LineEnd(r, |Rule|);
      if j + 2 <= |r| - 1 && r[j] == '\n' && r[j + 1] == '\n' then
        var file, content := r[|Rule|..j], r[j + 2..|r| - 1];
        assert r == Rule + file + "\n\n" + content + "\n" by {
          assert r == r[..|Rule|] + r[|Rule|..j] + r[j..j + 2] + r[j + 2..|r| - 1] + r[|r| - 1..];
          assert r[j..j + 2] == "\n\n";
        }
        Some((file, content))
      else None
  }

  /** A record for a single-line path is read back as that path and that content. */
  lemma ParseRecordOf(file: string, content: string)
    requires SingleLine(file)
    ensures ParseRecord(Record(file, content)) == Some((file, content))
  {
    var r := Record(file, content);
    var n := |Rule|;
    RecordParts(file, content);
    Piece(r, r, 0, n, file + "\n");
    LineEndAt(r, n, file);
    assert r[n + |file|] == '\n' && r[n + |file| + 1] == '\n';
  }

  lemma RecordParts(file: string, content: string)
    ensures |Record(file, content)| == |Rule| + |file| + |content| + 3
    ensures Record(file, content)[..|Rule|] == Rule
    ensures Record(file, content)[|Rule|..|Rule| + |file| + 1] == file + "\n"
    ensures Record(file, content)[|Rule|..|Rule| + |file|] == file
    ensures Record(file, content)[|Rule| + |file| + 2..|Record(file, content)| - 1] == content
    ensures Record(file, content)[|Rule| + |file|] == '\n' && Record(file, content)[|Rule| + |file| + 1] == '\n'
    ensures Record(file, content)[|Record(file, content)| - 1] == '\n'
  {
    var r := Record(file, content);
    assert r == Rule + (file + "\n") + ("\n" + content + "\n");
    assert HoldsAt(r, r, 0);
  }

  /** The records of the files, in order. */
  function Records(files: seq<string>, contents: seq<string>): string
    requires |files| == |contents|
    decreases |files|
  {
    if files == [] then []
    else
      var n := |files| - 1;
      Records(files[..n], contents[..n]) + Record(files[n], contents[n])
  }

  /** The collected files in sorted order. */
  function Files(tree: seq<Node>): seq<string> {
    Sort(CollectedPaths(tree))
  }

  /**
   * What a run writes: the header and the records; or the path of the first
   * directory the walk enters and cannot list; or else the first sorted path
   * whose read fails.
   */
  function Reference(tree: seq<Node>): Result<string> {
    match Walk(tree, [], [], Stops, Keeps)
    case Err(d) => Err(d)
    case Ok(found) =>
      match ReadAll(Reader(tree), Sort(found))
      case Err(p) => Err(p)
      case Ok(contents) => Ok(Preamble + Records(Sort(found), contents))
  }

  /**
   * `main()` up to the final write: collect and sort the files, write the
   * header, then read each file and append its record.
   */
  method Generate(tree: seq<Node>) returns (r: Result<string>)
    requires WellFormed(tree)
    ensures r == Reference(tree)
  {
    var found := Collect(tree, [], []);
    if found.Err? {
      return Err(found.path);
    }
    var files := Sort(found.value);
    var out := Title + "\n\n";
    out := out + Summary + "\n";
    out := out + Regen + "\n";
    ghost var contents: seq<string> := [];
    assert files[..0] == [];
    for i := 0 to |files|
      invariant ReadAll(Reader(tree), files[..i]) == Ok(contents)
      invariant |contents| == i && out == Preamble + Records(files[..i], contents)
    {
      var read := Read(tree, files[i]);
      if read.None? {
        ReadAllFails(Reader(tree), files, i, contents);
        return Err(files[i]);
      }
      var content := read.value;
      ReadAllStep(Reader(tree), files, i, contents, content);
      AppendStep(files, i, contents, content);
      out := out + Record(files[i], content);
      contents := contents + [content];
    }
    assert files[..|files|] == files;
    r := Ok(out);
  }

  /** One turn of the loop keeps its invariant. */
  lemma AppendStep(files: seq<string>, i: nat, contents: seq<string>, c: string)
    requires i < |files| && |contents| == i
    ensures Preamble + Records(files[..i], contents) + Record(files[i], c) ==
            Preamble + Records(files[..i + 1], contents + [c])
  {
    RecordsStep(files, i, contents, c);
    AppendAssoc(Preamble, Records(files[..i], contents), Record(files[i], c));
  }

  lemma RecordsStep(files: seq<string>, i: nat, contents: seq<string>, c: string)
    requires i < |files| && |contents| == i
    ensures Records(files[..i + 1], contents + [c]) == Records(files[..i], contents) + Record(files[i], c)
  {
    assert files[..i + 1][..i] == files[..i] && (contents + [c])[..i] == contents;
  }

  /**
   * Each file's record comes right after the records of the files before it:
   * the output for the first `k` files, followed by the record of file `k`,
   * begins the whole output.
   */
  lemma {:induction false} RecordsInOrder(files: seq<string>, contents: seq<string>, k: nat)
    requires |files| == |contents| && k < |files|
    ensures StartsWith(Records(files, contents), Records(files[..k], contents[..k]) + Record(files[k], contents[k]))
    decreases |files|
  {
    var n := |files| - 1;
    var a, b := files[..n], contents[..n];
    if k == n {
      assert Records(files, contents) == Records(a, b) + Record(files[n], contents[n]);
    } else {
      RecordsInOrder(a, b, k);
      assert a[..k] == files[..k] && b[..k] == contents[..k] && a[k] == files[k] && b[k] == contents[k];
      var p := Records(files[..k], contents[..k]) + Record(files[k], contents[k]);
      var whole := Records(files, contents);
      assert whole == Records(a, b) + Record(files[n], contents[n]);
      assert whole[..|p|] == Records(a, b)[..|p|];
    }
  }

  /**
   * Only regular files are collected, so a run succeeds exactly when the walk
   * enters no directory it cannot list and every collected file can be read.
   * Otherwise it fails with the path of an unlisted directory the walk
   * enters, when there is one, and else with the path of a collected file
   * whose read rejects.
   */
  lemma ReferenceOk(tree: seq<Node>)
    requires WellFormed(tree)
    ensures Reference(tree).Ok? <==>
            (forall l :: l in Leaves(tree, [], []) ==> !Stops(l)) &&
            forall l :: l in Leaves(tree, [], []) && Keeps(l) ==> l.node.content.Some?
    ensures Reference(tree).Err? && (exists l :: l in Leaves(tree, [], []) && Stops(l)) ==>
            exists l :: l in Leaves(tree, [], []) && Stops(l) && l.rel == Reference(tree).path
    ensures Reference(tree).Err? && (forall l :: l in Leaves(tree, [], []) ==> !Stops(l)) ==>
            exists l :: l in Leaves(tree, [], []) && Keeps(l) && l.node.content.None? && l.rel == Reference(tree).path
  {
    WalkMeaning(tree, [], [], Stops, Keeps);
    SortedKeptRead(tree, Keeps);
  }
}
