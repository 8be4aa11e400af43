# Full code and docs references, modelled in Dafny

The repository has two generator scripts.

- `scripts/generate_full_code_reference.mjs` walks the project. It picks the source and configuration files by a set of path filters and writes `docs/full_code_reference.md`. That file holds a fixed preamble, a sorted index of the files, and one fenced section per file. A section found in the previous version of the file is kept when it equals the fresh one after `trim()`.
- `scripts/generate_full_docs_reference.mjs` walks `docs`. It keeps the markdown files that are not excluded and writes `docs/full_docs_reference.md`: a three-line header, then each file's untrimmed content under a rule and a heading.

The model works over an abstract directory tree (`FileTree.Node`). A node is a directory with its listing, a directory whose `readdir` rejects (`Unlisted`), a regular file, or a symbolic link; a file or link carries what `readFile` of it yields, or `None` when that read rejects. The separator is `/`. The previous output is passed in as `Option<string>`; `None` stands for a file that could not be read. Each run is a function from these inputs to the text written, or to the error the run rejects with (`Reference`): the path of the first directory the walk enters and cannot list, or else the first sorted path whose read fails. Each script's `collect` and `main` are methods proved to compute that function. Sections are fenced with the tag the source's object-literal lookup gives, inherited keys included; the intended table is modelled beside it (see "## Findings").

Modules:

- `Text`: JavaScript string primitives.
- `Paths`: `split`, `path.extname`.
- `StringOrder`: the default `sort` order.
- `FileTree`: the walk order, lookups and reads.
- `CodeCollector`: the code generator's filters and walk.
- `Fence`: `fenceFor`.
- `SectionScan`: the previous-sections regular expression as a scanner.
- `CodeReference`: the code document.
- `DocsReference`: the docs aggregator.

The central results are these.

- The reuse branch never changes the output. A scanned section starts with `### ` and ends with a closing fence and a blank line, and so does a fresh one. Their `trim()`s therefore drop exactly that blank line, and equal trims mean equal texts. As a result, the document does not depend on the previous file (`CodeReference.ReferenceIgnoresPrevious`).
- Scanning a generated document recovers every file's fresh section under its path, and no other key. This holds when paths are single-line and each body cannot close its fence early (`CodeReference.DocumentRoundTrip`).
- The collected paths are exactly the leaves that pass the filters, and the walk prunes nothing the filters would keep.

## Model

| member | source | states |
|---|---|---|
| Paths.ExtName | scripts/generate_full_code_reference.mjs:23 | `path.extname` of a path without a trailing separator: empty, or a dot followed by no further dot, and a suffix of the path; empty when the basename has no dot |
| Paths.ExtNameDotfile | scripts/generate_full_code_reference.mjs:23 | a leading dot starts no extension: `.gitignore` and `.md` have none |
| Paths.ExtNameOf | scripts/generate_full_code_reference.mjs:23 | `dir/stem.ext` with a non-empty stem has extension `.ext` |
| Paths.ExtNameLastDot | scripts/generate_full_code_reference.mjs:23 | only the last dot counts: `a.tar.gz` has `.gz` |
| Paths.ExtNameJoin | scripts/generate_full_code_reference.mjs:23 | the extension of an entry's relative path is the extension of its name |
| Paths.UnsplitSplit | scripts/generate_full_code_reference.mjs:17 | joining the segments of `rel.split("/")` gives back `rel` |
| Paths.SplitUnsplit | scripts/generate_full_code_reference.mjs:17 | splitting segments joined with `/` gives back the segments |
| Paths.SplitAppend | scripts/generate_full_code_reference.mjs:17 | the segments of `a/b` are those of `a` followed by those of `b` |
| Paths.SegsJoin | scripts/generate_full_code_reference.mjs:30-31 | descending into an entry adds exactly its name as a segment |
| Text.TrimEnd | scripts/generate_full_code_reference.mjs:76 | `trimEnd()`: the longest prefix that does not end in ECMAScript white space; all removed characters are white space |
| Text.TrimDropsTail | scripts/generate_full_code_reference.mjs:80 | `trim()` of a text with non-space ends around a white-space tail removes exactly that tail |
| Text.ToLower | scripts/generate_full_code_reference.mjs:23 | `toLowerCase()` maps every character by `LowerChar` and keeps the length |
| StringOrder.BelowTotal | scripts/generate_full_code_reference.mjs:55 | the default sort order compares any two strings |
| StringOrder.BelowTransitive | scripts/generate_full_code_reference.mjs:55 | the default sort order is transitive |
| StringOrder.BelowAntisymmetric | scripts/generate_full_code_reference.mjs:55 | strings ordered both ways are equal |
| StringOrder.Sort | scripts/generate_full_code_reference.mjs:55 | `sort()` returns a sorted permutation of its input |
| StringOrder.SortedUnique | scripts/generate_full_code_reference.mjs:55 | any two sorted permutations of the same paths are identical, so the order is fully determined |
| StringOrder.SortKeepsDistinct | scripts/generate_full_code_reference.mjs:55 | sorting distinct paths yields distinct paths |
| FileTree.KeptPathsMember | scripts/generate_full_code_reference.mjs:26-44 | a path is kept exactly when some leaf at that path passes the test |
| FileTree.KeptPathsAppend | scripts/generate_full_code_reference.mjs:29-42 | the paths kept from two runs of entries are those of the first run followed by those of the second |
| FileTree.LeavesDistinct | scripts/generate_full_code_reference.mjs:29-31 | in a tree whose directories hold distinct names, the leaves have distinct paths |
| FileTree.NodeLeafShape | scripts/generate_full_code_reference.mjs:33-34 | every leaf below a directory has that directory among its ancestors, and its path's segments extend the directory's |
| FileTree.LeafRead | scripts/generate_full_code_reference.mjs:76 | reading a leaf's path gives what reading that file or link yields |
| FileTree.LeafReadable | scripts/generate_full_code_reference.mjs:76 | reading a leaf's path succeeds exactly when the leaf is readable |
| FileTree.SortedKeptRead | scripts/generate_full_code_reference.mjs:75-76 | reading the sorted collected paths in order succeeds exactly when every collected leaf is readable, and otherwise stops at a collected leaf that is not |
| FileTree.KeptPathsFirst | scripts/generate_full_code_reference.mjs:29-42 | the first kept path belongs to the first kept leaf in walk order |
| FileTree.WalkMeaning | scripts/generate_full_code_reference.mjs:26-44 | a walk succeeds exactly when no leaf stops it, and then returns exactly the kept paths; otherwise it fails with the path of the first leaf, in walk order, that stops it |
| FileTree.KeptFirstAt | scripts/generate_full_code_reference.mjs:29-34 | when no entry before entry `i` stops the walk and entry `i` does, the walk of the listing stops where the walk below entry `i` stops |
| FileTree.ReadAllMeaning | scripts/generate_full_code_reference.mjs:75-76 | reading in order succeeds exactly when every read succeeds and then yields each file's text; otherwise it fails on the first path that cannot be read |
| CodeCollector.Collect | scripts/generate_full_code_reference.mjs:26-44 | `collect` rejects with the path of the first unlisted directory it enters (one with no excluded segment), and otherwise returns exactly the paths of the leaves that pass the filters, in walk order |
| CodeCollector.ExcludedBelow | scripts/generate_full_code_reference.mjs:16-32 | every path below a directory with an excluded segment is excluded too, so skipping the directory loses nothing |
| CodeCollector.ExcludedAnywhere | scripts/generate_full_code_reference.mjs:16-20 | a path with an excluded name as any segment (first, middle or last) is excluded |
| CodeCollector.DeepExclusionExample | scripts/generate_full_code_reference.mjs:16-20 | `a/b/node_modules/c/d.js` is excluded |
| CodeCollector.InIncludedDirSegments | scripts/generate_full_code_reference.mjs:36 | a path is inside an included directory exactly when it has at least two segments and the first is an included name |
| CodeCollector.PrefixBoundaryExample | scripts/generate_full_code_reference.mjs:36 | `src/foo.js` is in an included directory; `src2/foo.js` and `srcfoo/a.js` are not |
| CodeCollector.CollectedExactly | scripts/generate_full_code_reference.mjs:22-40 | a path is collected exactly when some leaf there that is not a directory has no excluded segment, is not binary, does not end in `.lock`, and is in an included directory or is an included file |
| CodeCollector.CollectedDistinct | scripts/generate_full_code_reference.mjs:26-44 | no path is collected twice |
| CodeCollector.OutputNotCollected | scripts/generate_full_code_reference.mjs:36-39 | the generated `docs/full_code_reference.md` is never collected |
| Fence.TagForAsWritten | scripts/generate_full_code_reference.mjs:48-49 | the lookup as written, inherited keys included: the tag is never empty, and it is single-line and free of backticks when the key is |
| Fence.FenceForAsWritten | scripts/generate_full_code_reference.mjs:46-50 | `fenceFor` as written: the tag is never empty, and it is single-line when the path is |
| Fence.ObjectTextsPlain | scripts/generate_full_code_reference.mjs:48-49 | the printed `Object` function and `Object.prototype` hold no line terminator and no backtick |
| Fence.FenceFor | scripts/generate_full_code_reference.mjs:46-50 | the intended table: the tag is never empty, and it is single-line when the path is |
| Fence.ExtKeyOf | scripts/generate_full_code_reference.mjs:47 | the lookup key of `dir/stem.ext` is `ext` lowercased |
| Fence.FenceForModule | scripts/generate_full_code_reference.mjs:48-49 | `.mjs` files are fenced as `js` |
| Fence.FenceForCommonJs | scripts/generate_full_code_reference.mjs:48-49 | `.cjs` files are fenced as `js` |
| Fence.FenceForOther | scripts/generate_full_code_reference.mjs:47-49 | any other non-empty extension is its own tag, lowercased |
| Paths.ExtNameOfPath | scripts/generate_full_code_reference.mjs:47 | `path.extname` of a whole relative path, as `fenceFor(file)` takes it: `src/app.js` has `.js` |
| Fence.FenceForUpperYaml | scripts/generate_full_code_reference.mjs:47-49 | `.YML` files are fenced as `yaml`: the key is lowercased first |
| Fence.FenceForNoExtension | scripts/generate_full_code_reference.mjs:49 | a name with no extension is fenced as `text` |
| Fence.TagForAsWrittenAgrees | scripts/generate_full_code_reference.mjs:48-49 | the object-literal lookup and the intended table agree on every key except `constructor` and `__proto__` |
| Fence.FenceForConstructor | scripts/generate_full_code_reference.mjs:48-49 | as written, a `.constructor` file gets the text of the `Object` function as its tag; the intended table gives `constructor` |
| Fence.FenceForProto | scripts/generate_full_code_reference.mjs:48-49 | as written, a `.__proto__` file gets `[object Object]` as its tag; the intended table gives `__proto__` |
| Fence.FenceWithoutBacktick | scripts/generate_full_code_reference.mjs:46-50 | a path without backticks gets a tag without backticks, in both tables |
| SectionScan.LineEndFirst | scripts/generate_full_code_reference.mjs:61 | `(.+?)` stops at the first line terminator |
| SectionScan.FindCloseFirst | scripts/generate_full_code_reference.mjs:61 | the lazy `[\s\S]*?` stops at the first closing fence, and there is none when it fails |
| SectionScan.MatchAtShape | scripts/generate_full_code_reference.mjs:61 | every match is a section: a `### ` line, its single-line path, an opening fence, and a closing fence followed by a blank line |
| SectionScan.NextMatchFirst | scripts/generate_full_code_reference.mjs:61-63 | `exec` finds the leftmost match from the search position, and none exists when it fails |
| SectionScan.ScanSections | scripts/generate_full_code_reference.mjs:58-65 | the `while (regex.exec…)` loop fills the map with `SectionsOf` the previous text |
| SectionScan.OverlayLatest | scripts/generate_full_code_reference.mjs:64 | with duplicate paths, the later match overwrites the earlier one |
| SectionScan.OverlayValues | scripts/generate_full_code_reference.mjs:64 | every stored value is a match recorded under its own path |
| SectionScan.SectionsShaped | scripts/generate_full_code_reference.mjs:61-65 | every stored text is a section headed by its key |
| SectionScan.BlockMatched | scripts/generate_full_code_reference.mjs:61-78 | a block at a line start, with a single-line path and a body that closes once, is matched whole, with its path |
| SectionScan.NoBacktickClosesOnce | scripts/generate_full_code_reference.mjs:61-78 | a body without backticks cannot end its block early |
| SectionScan.ScanSkipsQuiet | scripts/generate_full_code_reference.mjs:61-63 | lines that do not start with `### ` yield no match |
| SectionScan.ScanBlocks | scripts/generate_full_code_reference.mjs:61-78 | consecutive recoverable blocks are found one by one, each with its path |
| SectionScan.ScanDocument | scripts/generate_full_code_reference.mjs:61-81 | quiet preamble lines followed by blocks scan as exactly those blocks, in order |
| SectionScan.SectionsOfDocument | scripts/generate_full_code_reference.mjs:61-65 | for distinct paths, the stored keys are exactly the paths and each maps to its block |
| CodeReference.Reuse | scripts/generate_full_code_reference.mjs:80 | the written section is the fresh block or the stored one |
| CodeReference.WriteHead | scripts/generate_full_code_reference.mjs:68-73 | the header build writes the preamble lines, one `- f` entry per sorted file, and a blank line |
| CodeReference.WriteSections | scripts/generate_full_code_reference.mjs:75-81 | the section loop appends each file's section in sorted order, or stops at the first unreadable path |
| CodeReference.Generate | scripts/generate_full_code_reference.mjs:52-82 | a run writes exactly `Reference(tree, previous)` |
| CodeReference.SectionTrim | scripts/generate_full_code_reference.mjs:80 | `trim()` of a section removes exactly its final blank line |
| CodeReference.SameTrimSameSection | scripts/generate_full_code_reference.mjs:80 | two sections with equal `trim()`s are the same text |
| CodeReference.PriorShaped | scripts/generate_full_code_reference.mjs:58-66 | whatever the previous text, every stored entry is a section headed by its key |
| CodeReference.ReuseIsFresh | scripts/generate_full_code_reference.mjs:79-80 | the reuse branch writes exactly the fresh block |
| CodeReference.SectionsIgnorePrior | scripts/generate_full_code_reference.mjs:75-81 | the sections written are the same for any stored sections as for none |
| CodeReference.ReferenceIgnoresPrevious | scripts/generate_full_code_reference.mjs:57-81 | the document is the same whatever the previous file holds, or when it is missing |
| CodeReference.RegenerateStable | scripts/generate_full_code_reference.mjs:52-82 | running again over its own output on the same tree writes the same text |
| FileTree.SortedKept | scripts/generate_full_code_reference.mjs:55 | `(await collect(root)).sort()` lists the collected paths in order, each once, and no others; the index, the sections and the docs records follow this list |
| CodeReference.ReferenceOk | scripts/generate_full_code_reference.mjs:26-76 | a run succeeds exactly when the walk enters no directory it cannot list and every collected file or link can be read; otherwise it fails on the path of an entered unlisted directory when there is one, and else on the path of a collected entry that cannot be read |
| CodeReference.UnlistedStops | scripts/generate_full_code_reference.mjs:27-34 | a top-level directory such as `data` whose listing rejects ends the run with its path, though nothing in it would be collected |
| CodeReference.DocumentRoundTrip | scripts/generate_full_code_reference.mjs:61-81 | scanning the document stores exactly the files' paths, each mapped to its fresh section |
| CodeReference.WithoutBackticksRecoverable | scripts/generate_full_code_reference.mjs:78 | a file whose path and content hold no backtick has a body that closes once |
| CodeReference.ConstructorSection | scripts/generate_full_code_reference.mjs:49-78 | the section of a `.constructor` file opens with the `Object` function's text as its tag, as the source writes it |
| CodeReference.ContentOpeningFence | scripts/generate_full_code_reference.mjs:61-78 | content that avoids `\n```\n\n` can still end its block early when it opens with a fence and a blank line |
| DocsReference.Collect | scripts/generate_full_docs_reference.mjs:17-30 | `collect` rejects with the path of the first unlisted directory it enters (one neither excluded nor below an excluded directory), and otherwise returns exactly the regular `.md` leaves that are not excluded and have no excluded directory above them, in walk order |
| DocsReference.PrunedBelow | scripts/generate_full_docs_reference.mjs:23-24 | nothing below an excluded directory is collected |
| DocsReference.CollectedExactly | scripts/generate_full_docs_reference.mjs:23-26 | a path is collected exactly when a regular file there has extension `.md`, is not excluded, and has no excluded ancestor directory |
| DocsReference.CollectedDistinct | scripts/generate_full_docs_reference.mjs:17-30 | no path is collected twice |
| DocsReference.ExclusionExamples | scripts/generate_full_docs_reference.mjs:9-15 | `exampleproject2/x.md` and `exampleproject-notes.md` are excluded by the plain prefix; `sub/full_docs_reference.md` is not |
| DocsReference.NestedNotExcluded | scripts/generate_full_docs_reference.mjs:12-22 | `full_docs_reference.md/a.md` is not excluded by its own path |
| DocsReference.PrunedDirectory | scripts/generate_full_docs_reference.mjs:23-24 | a top-level directory named `full_docs_reference.md` is not entered: the walk succeeds and collects nothing, even when that directory could not be listed |
| DocsReference.ExtensionIsExact | scripts/generate_full_docs_reference.mjs:25 | a `.MD` file's extension is not `.md`, so it is skipped |
| DocsReference.KeptNames | scripts/generate_full_docs_reference.mjs:25 | every collected file's name ends in `.md` |
| DocsReference.LinksSkipped | scripts/generate_full_docs_reference.mjs:25 | links are never collected |
| DocsReference.ParseRecord | scripts/generate_full_docs_reference.mjs:40 | a record parsed back re-renders to the same text |
| DocsReference.ParseRecordOf | scripts/generate_full_docs_reference.mjs:40 | a record for a single-line path parses back to that path and the untrimmed content |
| DocsReference.RecordsInOrder | scripts/generate_full_docs_reference.mjs:38-41 | the output for the first `k` files, then file `k`'s record, begins the records text |
| DocsReference.Generate | scripts/generate_full_docs_reference.mjs:32-42 | a run writes exactly `Reference(tree)`: the header, then one record per sorted file |
| DocsReference.ReferenceOk | scripts/generate_full_docs_reference.mjs:17-41 | a run succeeds exactly when the walk enters no directory it cannot list and every collected regular file can be read; otherwise it fails on the path of an entered unlisted directory when there is one, and else on the path of a collected file whose read rejects |

## Left out

- File-system calls (`readdir`, `readFile`, `writeFile`, `mkdir`) become the abstract tree, reads from it, and the returned text; nothing is written.
- CodeReference.ReferenceOk: takes the listing of the project root itself, the `mkdir` of `docs` and the final `writeFile` to succeed; a failing listing below the root is modelled (`Unlisted`), but the root's own listing is the given tree.
- DocsReference.ReferenceOk: takes the `mkdir` of `docs`, the listing of `docs` itself and the final `writeFile` to succeed; a failing listing below `docs` is modelled (`Unlisted`), but the listing of `docs` is the given tree.
- Paths.ExtName: does not strip a trailing separator as `path.extname` does (`a.b/` has `.b` there and none here); the scripts only ask it of names and of `Join`s that end in a name.
- Root resolution through `import.meta.url` and `fileURLToPath` is left out; paths are relative to the walk's root, as `path.relative` makes them.
- `async`/`await` sequencing, `main().catch` and `process.exit` are runtime plumbing; a failed read is the `Err` result carrying its path.
- Only the one regular expression at line 61 is modelled, by a hand-written scanner (`SectionScan`); the general regex engine is not.
- The swallowed error when the previous file cannot be read (`catch {}`) is the `None` previous text, which gives an empty map.
- Symbolic links are leaves carrying what their target reads as; link cycles and resolution are not modelled.
- Why a read rejects (permissions, a vanished file, a link to a directory) is not modelled; the tree records only whether it does.
- `path.sep` is fixed to `/`; Windows paths are not modelled.
- Text.ToLower: lowercases ASCII letters only; `toLowerCase` also maps non-ASCII capitals.
- StringOrder.Sort: orders by code point, where JavaScript compares UTF-16 code units; the two differ only for characters outside the Basic Multilingual Plane.
- StringOrder.Sort: is a reference insertion sort standing for the engine's sort; only its result, sorted and a permutation, is relied on.
- CodeReference.Reuse: its contract only says the result is one of the two candidates; that the candidates coincide whenever reuse happens is `CodeReference.ReuseIsFresh`.
- CodeReference.DocumentRoundTrip: requires each body to close once (`ClosesOnce`). Content that merely avoids `\n```\n\n` is not enough (`CodeReference.ContentOpeningFence`); `CodeReference.WithoutBackticksRecoverable` gives a simple sufficient condition.
- File contents are read as text; UTF-8 decoding is not modelled.

## Findings

| source | as written | input that shows it | evidently intended | confidence | as-written member | corrected member |
|---|---|---|---|---|---|---|
| scripts/generate_full_code_reference.mjs:48-49 | the tag table is a plain object literal, so `map[ext]` also finds the keys every object inherits | a file named `x.constructor` is fenced as `function Object() { [native code] }`, and `x.__proto__` as `[object Object]` | a key not in the table falls through to the extension itself | not executed | Fence.FenceForConstructor | Fence.TagForAsWrittenAgrees |
