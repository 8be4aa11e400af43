/**
 * The document the code-reference generator writes: a fixed preamble, an
 * index of the collected files, and one fenced section per file, where a
 * section of the previous document is reused when it equals the fresh one
 * up to surrounding white space.
 */
module CodeReference {
  import opened Wrappers
  import opened Text
  import opened FileTree
  import opened StringOrder
  import opened CodeCollector
  import opened Fence
  import Paths
  import opened SectionScan

  // The longer texts are written as concatenations of short pieces: the
  // lemmas below that check them character by character stay small that way.
  const Title: string := "# Full Code Reference"
  const Intro: string :=
    "Includes source files " + "from src, server, " + "tests, lib, and " + "scripts plus key " +
    "config files. " + "Excludes node_modules " + "and build outputs."
  const Regen: string := "Regenerate with " + "`npm run docs:" + "code:regen`."
  const IndexHeading: string := "## File Index"

  /** The lines before the index entries, each fixed line followed by a blank one. */
  const PreambleLines: seq<string> := [Title, "", Intro, "", Regen, "", IndexHeading, ""]

  /** One index entry per file. */
  function Bullets(files: seq<string>): seq<string> {
    seq(|files|, k requires 0 <= k < |files| => "- " + files[k])
  }

  /** Everything before the first section: the preamble, the index, and the blank line after it. */
  function Head(files: seq<string>): string {
    Lines(PreambleLines + Bullets(files) + [""])
  }

  /**
   * What goes between the fences: the language tag on the opening line, then
   * the trimmed content.  The tag is the one the source's object-literal
   * lookup gives, inherited keys included (see `Fence.TagForAsWritten`).
   */
  function Body(file: string, content: string): string {
    FenceForAsWritten(file) + "\n" + TrimEnd(content)
  }

  /** The fresh section for a file. */
  function Render(file: string, content: string): string {
    Block(file, Body(file, content))
  }

  /** `existingSections.get(f)`. */
  function Get(prior: map<string, string>, file: string): (r: Option<string>)
    ensures r.Some? <==> file in prior
    ensures r.Some? ==> r.value == prior[file]
  {
    if file in prior then Some(prior[file]) else None
  }

  /**
   * The section written for a file: the previous one when it is a non-empty
   * text equal to the fresh one after trimming, else the fresh one.
   */
  function Reuse(existing: Option<string>, block: string): (r: string)
    ensures r == block || (existing.Some? && r == existing.value)
  {
    if existing.Some? && existing.value != [] && Trim(existing.value) == Trim(block) then existing.value else block
  }

  /** The section written for each file, in order. */
  function Sections(files: seq<string>, contents: seq<string>, prior: map<string, string>): string
    requires |files| == |contents|
    decreases |files|
  {
    if files == [] then []
    else
      var n := |files| - 1;
      Sections(files[..n], contents[..n], prior) + Reuse(Get(prior, files[n]), Render(files[n], contents[n]))
  }

  /** The whole document for the sorted files, their contents, and the sections of the previous document. */
  function Document(files: seq<string>, contents: seq<string>, prior: map<string, string>): string
    requires |files| == |contents|
  {
    Head(files) + Sections(files, contents, prior)
  }

  /** The sections found in the previous document; none when it could not be read. */
  function Prior(previous: Option<string>): map<string, string> {
    if previous.Some? then SectionsOf(previous.value) else map[]
  }

  /** The collected files in sorted order. */
  function Files(tree: seq<Node>): seq<string> {
    Sort(CollectedPaths(tree))
  }

  /**
   * What a run produces from the tree and the previous document's text: the
   * document; or the path of the first directory the walk enters and cannot
   * list; or else the first sorted path whose read fails.
   */
  function Reference(tree: seq<Node>, previous: Option<string>): Result<string> {
    match Walk(tree, [], [], Stops, Collects)
    case Err(d) => Err(d)
    case Ok(found) =>
      match ReadAll(Reader(tree), Sort(found))
      case Err(p) => Err(p)
      case Ok(contents) => Ok(Document(Sort(found), contents, Prior(previous)))
  }

  /**
   * `main()` up to the final write: collect and sort the files, scan the
   * previous document, write the preamble and the index, then read each file
   * and append its section.  The text returned is what `writeFile` is given.
   */
  method Generate(tree: seq<Node>, previous: Option<string>) returns (r: Result<string>)
    requires WellFormed(tree)
    ensures r == Reference(tree, previous)
  {
    var found := Collect(tree, [], []);
    if found.Err? {
      return Err(found.path);
    }
    var files := Sort(found.value);
    var sections: map<string, string> := map[];
    if previous.Some? {
      sections := ScanSections(previous.value);
    }
    var out := WriteHead(files);
    r := WriteSections(tree, files, sections, out);
  }

  /** The preamble, one index entry per file, and a blank line. */
  method WriteHead(files: seq<string>) returns (out: string)
    ensures out == Head(files)
  {
    out := Title + "\n\n";
    out := out + Intro + "\n\n";
    out := out + Regen + "\n\n";
    out := out + IndexHeading + "\n\n";
    PreambleText();
    assert PreambleLines + Bullets(files[..0]) == PreambleLines;
    for i := 0 to |files|
      invariant out == Lines(PreambleLines + Bullets(files[..i]))
    {
      BulletsStep(files, i);
      LinesAppend(PreambleLines + Bullets(files[..i]), ["- " + files[i]]);
      out := out + "- " + files[i] + "\n";
    }
    assert files[..|files|] == files;
    LinesAppend(PreambleLines + Bullets(files), [""]);
    out := out + "\n";
  }

  /**
   * Reads each file in order and appends its section to `head`; the first
   * read that fails ends the run with that path.
   */
  method WriteSections(tree: seq<Node>, files: seq<string>, sections: map<string, string>, head: string)
    returns (r: Result<string>)
    ensures ReadAll(Reader(tree), files).Err? ==> r == Err(ReadAll(Reader(tree), files).path)
    ensures ReadAll(Reader(tree), files).Ok? ==> r == Ok(head + Sections(files, ReadAll(Reader(tree), files).value, sections))
  {
    var out := head;
    ghost var contents: seq<string> := [];
    for i := 0 to |files|
      invariant ReadAll(Reader(tree), files[..i]) == Ok(contents)
      invariant |contents| == i && out == head + Sections(files[..i], contents, sections)
    {
      var read := Read(tree, files[i]);
      if read.None? {
        ReadAllFails(Reader(tree), files, i, contents);
        return Err(files[i]);
      }
      var content := read.value;
      var block := Render(files[i], content);
      var existing := Get(sections, files[i]);
      var piece := Reuse(existing, block);
      WriteStep(tree, files, sections, head, i, contents, content);
      out := out + piece;
      contents := contents + [content];
    }
    assert files[..|files|] == files;
    r := Ok(out);
  }

  /** One turn of the loop keeps its invariant. */
  lemma WriteStep(tree: seq<Node>, files: seq<string>, sections: map<string, string>, head: string,
                  i: nat, contents: seq<string>, c: string)
    requires i < |files| && |contents| == i
    requires ReadAll(Reader(tree), files[..i]) == Ok(contents) && Read(tree, files[i]) == Some(c)
    ensures ReadAll(Reader(tree), files[..i + 1]) == Ok(contents + [c])
    ensures head + Sections(files[..i], contents, sections) + Reuse(Get(sections, files[i]), Render(files[i], c)) ==
            head + Sections(files[..i + 1], contents + [c], sections)
  {
    SectionsStep(files, i, contents, c, sections);
    ReadAllStep(Reader(tree), files, i, contents, c);
    AppendAssoc(head, Sections(files[..i], contents, sections), Reuse(Get(sections, files[i]), Render(files[i], c)));
  }

  lemma PreambleText()
    ensures Lines(PreambleLines) == Title + "\n\n" + Intro + "\n\n" + Regen + "\n\n" + IndexHeading + "\n\n"
  {
    SpacedLines(Title, Intro, Regen, IndexHeading);
  }

  /** Four lines, each followed by a blank one. */
  lemma SpacedLines(a: string, b: string, c: string, d: string)
    ensures Lines([a, "", b, "", c, "", d, ""]) == a + "\n\n" + b + "\n\n" + c + "\n\n" + d + "\n\n"
  {
    LinesAppend([a, "", b, "", c, ""], [d, ""]);
    LinesAppend([a, "", b, ""], [c, ""]);
    LinesAppend([a, ""], [b, ""]);
    PairLines(a);
    PairLines(b);
    PairLines(c);
    PairLines(d);
    assert [a, "", b, ""] == [a, ""] + [b, ""];
    assert [a, "", b, "", c, ""] == [a, "", b, ""] + [c, ""];
    assert [a, "", b, "", c, "", d, ""] == [a, "", b, "", c, ""] + [d, ""];
  }

  lemma PairLines(x: string)
    ensures Lines([x, ""]) == x + "\n\n"
  {
    assert [x, ""][1..] == [""];
    assert [""][1..] == [];
  }

  lemma BulletsStep(files: seq<string>, i: nat)
    requires i < |files|
    ensures Bullets(files[..i + 1]) == Bullets(files[..i]) + ["- " + files[i]]
    ensures PreambleLines + Bullets(files[..i + 1]) == (PreambleLines + Bullets(files[..i])) + ["- " + files[i]]
    ensures Lines(["- " + files[i]]) == "- " + files[i] + "\n"
  {
    assert ["- " + files[i]][1..] == [];
  }

  lemma SectionsStep(files: seq<string>, i: nat, contents: seq<string>, c: string, prior: map<string, string>)
    requires i < |files| && |contents| == i
    ensures Sections(files[..i + 1], contents + [c], prior) ==
            Sections(files[..i], contents, prior) + Reuse(Get(prior, files[i]), Render(files[i], c))
  {
    assert files[..i + 1][..i] == files[..i] && (contents + [c])[..i] == contents;
  }

  /**
   * Trimming a section removes exactly the blank line after its closing
   * fence: it starts with `#` and its last character before that line is a
   * backtick.
   */
  lemma SectionTrim(sec: string, path: string)
    requires Section(sec, path)
    ensures |sec| >= 6 && sec[|sec| - 2..] == "\n\n" && Trim(sec) == sec[..|sec| - 2]
  {
    var n := |sec|;
    assert sec[0] == '#' by {
      assert sec[..|Header + path + Open|][0] == sec[0];
    }
    assert sec[n - 6..] == Close;
    assert sec[n - 3] == '`' && sec[n - 2] == '\n' && sec[n - 1] == '\n' by {
      assert sec[n - 3] == sec[n - 6..][3] && sec[n - 2] == sec[n - 6..][4] && sec[n - 1] == sec[n - 6..][5];
    }
    assert sec[n - 2..] == "\n\n";
    TrimDropsTail(sec, "\n\n");
  }

  /** Two sections that agree after trimming are the same text. */
  lemma SameTrimSameSection(a: string, pa: string, b: string, pb: string)
    requires Section(a, pa) && Section(b, pb) && Trim(a) == Trim(b)
    ensures a == b
  {
    SectionTrim(a, pa);
    SectionTrim(b, pb);
    SameTail(a, b);
  }

  lemma SameTail(a: string, b: string)
    requires |a| >= 2 && |b| >= 2 && a[|a| - 2..] == b[|b| - 2..] && a[..|a| - 2] == b[..|b| - 2]
    ensures a == b
  {
    assert a == a[..|a| - 2] + a[|a| - 2..];
    assert b == b[..|b| - 2] + b[|b| - 2..];
  }

  /** Every stored text is a section headed by its own key, as the scan of any text guarantees. */
  predicate Shaped(prior: map<string, string>) {
    forall key :: key in prior ==> Section(prior[key], key)
  }

  lemma PriorShaped(previous: Option<string>)
    ensures Shaped(Prior(previous))
  {
    if previous.Some? {
      forall key | key in SectionsOf(previous.value) ensures Section(SectionsOf(previous.value)[key], key) {
        SectionsShaped(previous.value, key);
      }
    }
  }

  /**
   * Reusing a previous section never changes the output: a stored section
   * that equals the fresh one after trimming is the fresh one.
   */
  lemma ReuseIsFresh(prior: map<string, string>, file: string, content: string)
    requires Shaped(prior)
    ensures Reuse(Get(prior, file), Render(file, content)) == Render(file, content)
  {
    var block := Render(file, content);
    var existing := Get(prior, file);
    if existing.Some? && existing.value != [] && Trim(existing.value) == Trim(block) {
      BlockIsSection(file, Body(file, content));
      SameTrimSameSection(existing.value, file, block, file);
    }
  }

  /** The sections written are the fresh ones, whatever sections were stored. */
  lemma {:induction false} SectionsIgnorePrior(files: seq<string>, contents: seq<string>, prior: map<string, string>)
    requires |files| == |contents| && Shaped(prior)
    ensures Sections(files, contents, prior) == Sections(files, contents, map[])
    decreases |files|
  {
    if files != [] {
      var n := |files| - 1;
      SectionsIgnorePrior(files[..n], contents[..n], prior);
      ReuseIsFresh(prior, files[n], contents[n]);
      ReuseIsFresh(map[], files[n], contents[n]);
    }
  }

  /**
   * The output does not depend on the previous document: loading its sections
   * to minimize diffs yields exactly the text a run without it writes.
   */
  lemma ReferenceIgnoresPrevious(tree: seq<Node>, previous: Option<string>)
    ensures Reference(tree, previous) == Reference(tree, None)
  {
    var files := Files(tree);
    if Walk(tree, [], [], Stops, Collects).Ok? && ReadAll(Reader(tree), files).Ok? {
      var contents := ReadAll(Reader(tree), files).value;
      PriorShaped(previous);
      SectionsIgnorePrior(files, contents, Prior(previous));
    }
  }

  /** Running again over its own output, with the tree unchanged, writes the same text. */
  lemma RegenerateStable(tree: seq<Node>, previous: Option<string>)
    requires Reference(tree, previous).Ok?
    ensures Reference(tree, Some(Reference(tree, previous).value)) == Reference(tree, previous)
  {
    ReferenceIgnoresPrevious(tree, previous);
    ReferenceIgnoresPrevious(tree, Some(Reference(tree, previous).value));
  }

  /**
   * A run succeeds exactly when the walk enters no directory it cannot list
   * and every collected entry can be read.  Otherwise it fails with the path
   * of an unlisted directory the walk enters, when there is one, and else
   * with the path of a collected entry that cannot be read.
   */
  lemma ReferenceOk(tree: seq<Node>, previous: Option<string>)
    requires WellFormed(tree)
    ensures Reference(tree, previous).Ok? <==>
            (forall l :: l in Leaves(tree, [], []) ==> !Stops(l)) &&
            forall l :: l in Leaves(tree, [], []) && Collects(l) ==> Readable(l)
    ensures Reference(tree, previous).Err? && (exists l :: l in Leaves(tree, [], []) && Stops(l)) ==>
            exists l :: l in Leaves(tree, [], []) && Stops(l) && l.rel == Reference(tree, previous).path
    ensures Reference(tree, previous).Err? && (forall l :: l in Leaves(tree, [], []) ==> !Stops(l)) ==>
            exists l :: l in Leaves(tree, [], []) && Collects(l) && !Readable(l) && l.rel == Reference(tree, previous).path
  {
    WalkMeaning(tree, [], [], Stops, Collects);
    SortedKeptRead(tree, Collects);
  }

  /**
   * The walk lists every directory whose path has no excluded segment, not
   * only the included ones: a top-level directory such as `data` that cannot
   * be listed ends the run, though nothing in it would be collected.
   */
  lemma UnlistedStops(name: string, previous: Option<string>)
    requires Paths.IsName(name) && name !in ExcludedSegments
    ensures Reference([Unlisted(name)], previous) == Err(name)
  {
    var l := Leaf(name, [], Unlisted(name));
    assert Leaves([Unlisted(name)], [], []) == [l];
    assert Paths.Split(name) == [name];
    assert Stops(l);
    assert KeptPaths([l], Stops) == [name];
  }

  /** The (path, body) pair of each file's section. */
  function Pairs(files: seq<string>, contents: seq<string>): (r: seq<(string, string)>)
    requires |files| == |contents|
    ensures |r| == |files|
  {
    seq(|files|, k requires 0 <= k < |files| => (files[k], Body(files[k], contents[k])))
  }

  lemma {:induction false} BlocksSnoc(ps: seq<(string, string)>, p: (string, string))
    ensures Blocks(ps + [p]) == Blocks(ps) + Block(p.0, p.1)
    decreases |ps|
  {
    if ps == [] {
      assert [] + [p] == [p];
      assert [p][1..] == [];
    } else {
      assert (ps + [p])[1..] == ps[1..] + [p];
      BlocksSnoc(ps[1..], p);
      AppendAssoc(Block(ps[0].0, ps[0].1), Blocks(ps[1..]), Block(p.0, p.1));
    }
  }

  /** Without stored sections, the sections written are the fresh blocks, one per file, in order. */
  lemma {:induction false} SectionsFresh(files: seq<string>, contents: seq<string>)
    requires |files| == |contents|
    ensures Sections(files, contents, map[]) == Blocks(Pairs(files, contents))
    decreases |files|
  {
    if files != [] {
      var n := |files| - 1;
      var init := Pairs(files[..n], contents[..n]);
      var last := (files[n], Body(files[n], contents[n]));
      SectionsFresh(files[..n], contents[..n]);
      PairsSnoc(files, contents);
      BlocksSnoc(init, last);
      assert Reuse(Get(map[], files[n]), Render(files[n], contents[n])) == Block(last.0, last.1);
    }
  }

  lemma PairsSnoc(files: seq<string>, contents: seq<string>)
    requires |files| == |contents| && files != []
    ensures Pairs(files, contents) ==
            Pairs(files[..|files| - 1], contents[..|files| - 1]) + [(files[|files| - 1], Body(files[|files| - 1], contents[|files| - 1]))]
  {
    var n := |files| - 1;
    var a, init := Pairs(files, contents), Pairs(files[..n], contents[..n]);
    forall k | 0 <= k < n ensures a[k] == init[k] {
      assert files[..n][k] == files[k] && contents[..n][k] == contents[k];
    }
    Snoc(a, init, (files[n], Body(files[n], contents[n])));
  }

  lemma Snoc<T>(a: seq<T>, init: seq<T>, x: T)
    requires |a| == |init| + 1 && a[|init|] == x && forall k :: 0 <= k < |init| ==> a[k] == init[k]
    ensures a == init + [x]
  {
  }

  lemma TitleQuiet()
    ensures Quiet(Title)
  {
    assert Title[1] != Header[1];
  }

  lemma IntroQuiet()
    ensures Quiet(Intro)
  {
    var p1, p2, p3 := "Includes source files ", "from src, server, ", "tests, lib, and ";
    var p4, p5, p6, p7 := "scripts plus key ", "config files. ", "Excludes node_modules ", "and build outputs.";
    assert SingleLine(p1) && SingleLine(p2) && SingleLine(p3) && SingleLine(p4) by { IntroStartQuiet(); }
    assert SingleLine(p5) && SingleLine(p6) && SingleLine(p7) by { IntroEndQuiet(); }
    SingleLineConcat(p1, p2);
    SingleLineConcat(p1 + p2, p3);
    SingleLineConcat(p1 + p2 + p3, p4);
    SingleLineConcat(p1 + p2 + p3 + p4, p5);
    SingleLineConcat(p1 + p2 + p3 + p4 + p5, p6);
    SingleLineConcat(p1 + p2 + p3 + p4 + p5 + p6, p7);
    assert Intro[0] != Header[0];
  }

  lemma IntroStartQuiet()
    ensures SingleLine("Includes source files ") && SingleLine("from src, server, ")
    ensures SingleLine("tests, lib, and ") && SingleLine("scripts plus key ")
  {
  }

  lemma IntroEndQuiet()
    ensures SingleLine("config files. ") && SingleLine("Excludes node_modules ") && SingleLine("and build outputs.")
  {
  }

  lemma RegenQuiet()
    ensures Quiet(Regen)
  {
    var p1, p2, p3 := "Regenerate with ", "`npm run docs:", "code:regen`.";
    assert SingleLine(p1) && SingleLine(p2) && SingleLine(p3);
    SingleLineConcat(p1, p2);
    SingleLineConcat(p1 + p2, p3);
    assert Regen[0] != Header[0];
  }

  lemma IndexHeadingQuiet()
    ensures Quiet(IndexHeading)
  {
    assert IndexHeading[2] != Header[2];
  }

  /** An index entry for a single-line path is quiet: it starts with `-`. */
  lemma BulletQuiet(file: string)
    requires SingleLine(file)
    ensures Quiet("- " + file)
  {
    SingleLineConcat("- ", file);
    assert ("- " + file)[0] != Header[0];
  }

  /** No line before the first section can start one, when every path is a single line. */
  lemma HeadQuiet(files: seq<string>)
    requires forall k :: 0 <= k < |files| ==> SingleLine(files[k])
    ensures forall k :: 0 <= k < |PreambleLines + Bullets(files) + [""]| ==> Quiet((PreambleLines + Bullets(files) + [""])[k])
  {
    var ls := PreambleLines + Bullets(files) + [""];
    TitleQuiet();
    IntroQuiet();
    RegenQuiet();
    IndexHeadingQuiet();
    assert Quiet("");
    forall k | 0 <= k < |ls| ensures Quiet(ls[k]) {
      if 8 <= k < 8 + |files| {
        assert ls[k] == "- " + files[k - 8];
        BulletQuiet(files[k - 8]);
      }
    }
  }

  /**
   * The scan recovers what a run writes: in the document for distinct,
   * single-line paths whose bodies hold no early closing fence, each path is
   * stored with exactly its fresh section, and no other key is stored.
   */
  lemma DocumentRoundTrip(files: seq<string>, contents: seq<string>)
    requires |files| == |contents| && Distinct(files)
    requires forall k :: 0 <= k < |files| ==>
               files[k] != [] && SingleLine(files[k]) && ClosesOnce(Body(files[k], contents[k]))
    ensures forall key :: key in SectionsOf(Document(files, contents, map[])) <==> key in files
    ensures forall k :: 0 <= k < |files| ==>
              files[k] in SectionsOf(Document(files, contents, map[])) &&
              SectionsOf(Document(files, contents, map[]))[files[k]] == Render(files[k], contents[k])
  {
    var ps := Pairs(files, contents);
    DocumentStored(files, contents);
    PairsRecoverable(files, contents);
    KeysOfPairs(SectionsOf(Document(files, contents, map[])), ps, files);
  }

  /** The scan of the document stores the block of each (path, body) pair under its path, and nothing else. */
  lemma DocumentStored(files: seq<string>, contents: seq<string>)
    requires |files| == |contents| && Distinct(files)
    requires forall k :: 0 <= k < |files| ==>
               files[k] != [] && SingleLine(files[k]) && ClosesOnce(Body(files[k], contents[k]))
    ensures forall key :: key in SectionsOf(Document(files, contents, map[])) <==>
              exists k :: 0 <= k < |Pairs(files, contents)| && Pairs(files, contents)[k].0 == key
    ensures forall k :: 0 <= k < |Pairs(files, contents)| ==>
              Pairs(files, contents)[k].0 in SectionsOf(Document(files, contents, map[])) &&
              SectionsOf(Document(files, contents, map[]))[Pairs(files, contents)[k].0] ==
              Block(Pairs(files, contents)[k].0, Pairs(files, contents)[k].1)
  {
    var ls, ps := PreambleLines + Bullets(files) + [""], Pairs(files, contents);
    assert Document(files, contents, map[]) == Lines(ls) + Blocks(ps) by {
      SectionsFresh(files, contents);
    }
    HeadQuiet(files);
    PairsRecoverable(files, contents);
    SectionsOfDocument(ls, ps);
  }

  /** A map keyed by the paths of the pairs is keyed by the files those paths are. */
  lemma KeysOfPairs(m: map<string, string>, ps: seq<(string, string)>, files: seq<string>)
    requires forall key :: key in m <==> exists k :: 0 <= k < |ps| && ps[k].0 == key
    requires |ps| == |files| && forall k :: 0 <= k < |ps| ==> ps[k].0 == files[k]
    ensures forall key :: key in m <==> key in files
  {
    forall key ensures key in m <==> key in files {
      if key in files {
        var k :| 0 <= k < |files| && files[k] == key;
        assert ps[k].0 == key;
      }
    }
  }

  lemma PairsRecoverable(files: seq<string>, contents: seq<string>)
    requires |files| == |contents| && Distinct(files)
    requires forall k :: 0 <= k < |files| ==>
               files[k] != [] && SingleLine(files[k]) && ClosesOnce(Body(files[k], contents[k]))
    ensures Recoverable(Pairs(files, contents))
    ensures forall j, k :: 0 <= j < k < |files| ==> Pairs(files, contents)[j].0 != Pairs(files, contents)[k].0
    ensures forall k :: 0 <= k < |files| ==>
              Pairs(files, contents)[k].0 == files[k] && Pairs(files, contents)[k].1 == Body(files[k], contents[k])
  {
  }

  /** A file whose path and content hold no backtick has a body that does not close early. */
  lemma WithoutBackticksRecoverable(file: string, content: string)
    requires '`' !in file && '`' !in content
    ensures ClosesOnce(Body(file, content))
  {
    FenceWithoutBacktick(file);
    var t := TrimEnd(content);
    assert forall i :: 0 <= i < |t| ==> t[i] == content[i];
    var body := Body(file, content);
    forall i | 0 <= i < |body| ensures body[i] != '`' {
      var tag := FenceForAsWritten(file);
      if i < |tag| {
        assert body[i] == tag[i];
      } else if i > |tag| {
        assert body[i] == t[i - |tag| - 1];
      }
    }
    NoBacktickClosesOnce(body);
  }

  /** A `.constructor` file's section opens with the `Object` function's text as its tag. */
  lemma ConstructorSection(dir: string, stem: string, content: string)
    requires stem != [] && Paths.Sep !in stem
    ensures Body(Paths.Join(dir, stem + "." + "constructor"), content) == ObjectFunctionText + "\n" + TrimEnd(content)
  {
    FenceForConstructor(dir, stem);
  }

  /**
   * Content need not hold a closing fence to end its block early: after the
   * tag line, content that opens with three backticks and a blank line
   * completes `\n```\n\n` with the line feed before it.
   */
  lemma ContentOpeningFence()
    ensures !OccursAt("```\n\nx", Close, 0) && |"```\n\nx"| == |Close|
    ensures !ClosesOnce(Body("a", "```\n\nx"))
  {
    var c := "```\n\nx";
    assert c[0] != Close[0];
    assert FenceForAsWritten("a") == "text" by {
      assert Paths.ExtName("a") == [];
    }
    assert TrimEnd(c) == c;
    var body := Body("a", c);
    assert body == "text\n```\n\nx";
    assert CloseAt(body + Close, 4);
  }
}
