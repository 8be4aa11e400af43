/**
 * The directory tree the two walks read with `fs.readdir(dir, { withFileTypes: true })`
 * and the reads `fs.readFile` makes of the paths they collect.
 */
module FileTree {
  import opened Wrappers
  import opened Paths
  import opened StringOrder

  /**
   * A directory entry, in the order `readdir` lists it.  `Link` is any entry
   * that is neither a directory nor a regular file (a symbolic link, a
   * socket, ...): its `Dirent` answers false to both `isDirectory()` and
   * `isFile()`.  `Dir` is a directory with what `readdir` lists in it, and
   * `Unlisted` a directory whose `readdir` rejects (one without read
   * permission, say).  `content` and `resolved` are what a `readFile` of the
   * entry yields, `None` when that read rejects (a file without read
   * permission, a link whose target is missing or is a directory).
   */
  datatype Node =
    | Dir(name: string, children: seq<Node>)
    | Unlisted(name: string)
    | File(name: string, content: Option<string>)
    | Link(name: string, resolved: Option<string>)

  /** Names are what `readdir` returns: non-empty, separator-free, unique within a directory. */
  predicate WellFormed(entries: seq<Node>)
    decreases entries
  {
    (forall i :: 0 <= i < |entries| ==> NodeOk(entries[i])) &&
    (forall i, j :: 0 <= i < j < |entries| ==> entries[i].name != entries[j].name)
  }

  predicate NodeOk(n: Node)
    decreases n
  {
    IsName(n.name) && (n.Dir? ==> WellFormed(n.children))
  }

  /**
   * An entry below which an unpruned walk finds nothing more (a file, a link,
   * or an unlisted directory): its path relative to the walk's
   * root, the paths of the directories above it, and the entry.
   */
  datatype Leaf = Leaf(rel: string, ancestors: seq<string>, node: Node)

  /**
   * Every entry under `entries` (the listing of directory `dir`, which has
   * ancestors `anc`) that is not a listed directory, depth first, each
   * directory's listing in order: the order of an unpruned walk.
   */
  function Leaves(entries: seq<Node>, dir: string, anc: seq<string>): seq<Leaf>
    decreases entries
  {
    if entries == [] then [] else NodeLeaves(entries[0], dir, anc) + Leaves(entries[1..], dir, anc)
  }

  function NodeLeaves(n: Node, dir: string, anc: seq<string>): seq<Leaf>
    decreases n
  {
    var rel := Join(dir, n.name);
    if n.Dir? then Leaves(n.children, rel, anc + [rel]) else [Leaf(rel, anc, n)]
  }

  /** The paths of the leaves that `keep` accepts, in walk order. */
  function KeptPaths(ls: seq<Leaf>, keep: Leaf -> bool): (r: seq<string>)
    ensures |r| <= |ls|
  {
    if ls == [] then [] else (if keep(ls[0]) then [ls[0].rel] else []) + KeptPaths(ls[1..], keep)
  }

  lemma {:induction false} KeptPathsAppend(a: seq<Leaf>, b: seq<Leaf>, keep: Leaf -> bool)
    ensures KeptPaths(a + b, keep) == KeptPaths(a, keep) + KeptPaths(b, keep)
  {
    if a == [] {
      assert a + b == b;
    } else {
      var head := if keep(a[0]) then [a[0].rel] else [];
      assert (a + b)[0] == a[0] && (a + b)[1..] == a[1..] + b;
      assert KeptPaths(a + b, keep) == head + KeptPaths(a[1..] + b, keep);
      KeptPathsAppend(a[1..], b, keep);
      assert KeptPaths(a, keep) == head + KeptPaths(a[1..], keep);
    }
  }

  /** A path is kept exactly when some leaf with that path is accepted. */
  lemma {:induction false} KeptPathsMember(ls: seq<Leaf>, keep: Leaf -> bool, p: string)
    ensures p in KeptPaths(ls, keep) <==> exists l :: l in ls && l.rel == p && keep(l)
  {
    if ls != [] {
      KeptPathsMember(ls[1..], keep, p);
      assert forall l :: l in ls <==> l == ls[0] || l in ls[1..];
    }
  }

  /** Nothing is kept from leaves that are all refused. */
  lemma {:induction false} KeptPathsNone(ls: seq<Leaf>, keep: Leaf -> bool)
    requires forall l :: l in ls ==> !keep(l)
    ensures KeptPaths(ls, keep) == []
  {
    if ls != [] {
      KeptPathsNone(ls[1..], keep);
    }
  }

  /** Leaves with distinct paths give distinct kept paths. */
  lemma {:induction false} KeptPathsDistinct(ls: seq<Leaf>, keep: Leaf -> bool)
    requires forall i, j :: 0 <= i < j < |ls| ==> ls[i].rel != ls[j].rel
    ensures forall i, j :: 0 <= i < j < |KeptPaths(ls, keep)| ==> KeptPaths(ls, keep)[i] != KeptPaths(ls, keep)[j]
  {
    if ls != [] {
      KeptPathsDistinct(ls[1..], keep);
      var rest := KeptPaths(ls[1..], keep);
      forall p | p in rest ensures p != ls[0].rel {
        KeptPathsMember(ls[1..], keep, p);
        var l :| l in ls[1..] && l.rel == p && keep(l);
        var k :| 0 <= k < |ls[1..]| && ls[1..][k] == l;
        assert ls[k + 1] == l;
      }
      var r := KeptPaths(ls, keep);
      forall i, j | 0 <= i < j < |r| ensures r[i] != r[j] {
        if keep(ls[0]) {
          assert r[j] == rest[j - 1];
          if i == 0 {
            assert rest[j - 1] in rest;
          } else {
            assert r[i] == rest[i - 1];
          }
        } else {
          assert r == rest;
        }
      }
    }
  }

  lemma {:induction false} LeavesAppend(a: seq<Node>, b: seq<Node>, dir: string, anc: seq<string>)
    ensures Leaves(a + b, dir, anc) == Leaves(a, dir, anc) + Leaves(b, dir, anc)
  {
    if a == [] {
      assert a + b == b;
    } else {
      assert (a + b)[1..] == a[1..] + b;
      LeavesAppend(a[1..], b, dir, anc);
    }
  }

  /** One more entry of a listing adds what is kept below that entry. */
  lemma KeptStep(entries: seq<Node>, i: nat, dir: string, anc: seq<string>, keep: Leaf -> bool)
    requires i < |entries|
    ensures KeptPaths(Leaves(entries[..i + 1], dir, anc), keep) ==
      KeptPaths(Leaves(entries[..i], dir, anc), keep) + KeptPaths(NodeLeaves(entries[i], dir, anc), keep)
  {
    LeavesAppend(entries[..i], [entries[i]], dir, anc);
    assert entries[..i + 1] == entries[..i] + [entries[i]];
    assert [entries[i]][1..] == [];
    assert Leaves([entries[i]], dir, anc) == NodeLeaves(entries[i], dir, anc) + Leaves([], dir, anc);
    assert Leaves([entries[i]], dir, anc) == NodeLeaves(entries[i], dir, anc);
    KeptPathsAppend(Leaves(entries[..i], dir, anc), NodeLeaves(entries[i], dir, anc), keep);
  }

  /** Below an entry that is not a listed directory there is one leaf: the entry itself. */
  lemma KeptSingle(n: Node, dir: string, anc: seq<string>, keep: Leaf -> bool)
    requires !n.Dir?
    ensures KeptPaths(NodeLeaves(n, dir, anc), keep) ==
            if keep(Leaf(Join(dir, n.name), anc, n)) then [Join(dir, n.name)] else []
  {
    assert [Leaf(Join(dir, n.name), anc, n)][1..] == [];
  }

  /** Every leaf lies under one of the listed entries. */
  lemma {:induction false} LeafOfEntry(entries: seq<Node>, dir: string, anc: seq<string>, l: Leaf)
    requires l in Leaves(entries, dir, anc)
    ensures exists k :: 0 <= k < |entries| && l in NodeLeaves(entries[k], dir, anc)
  {
    if l !in NodeLeaves(entries[0], dir, anc) {
      LeafOfEntry(entries[1..], dir, anc, l);
      var k :| 0 <= k < |entries[1..]| && l in NodeLeaves(entries[1..][k], dir, anc);
      assert entries[1..][k] == entries[k + 1];
    }
  }

  /**
   * A leaf under entry `n` of directory `dir`: its segments continue those of
   * `n`'s path, its ancestors extend `anc` (with `n`'s path when `n` is a
   * listed directory), and it is `n` itself when it is not.
   */
  lemma {:induction false} NodeLeafShape(n: Node, dir: string, anc: seq<string>, l: Leaf)
    requires NodeOk(n) && l in NodeLeaves(n, dir, anc)
    ensures Segs(Join(dir, n.name)) <= Segs(l.rel)
    ensures |Segs(l.rel)| > |Segs(dir)| && Segs(l.rel)[|Segs(dir)|] == n.name
    ensures anc <= l.ancestors && !l.node.Dir?
    ensures n.Dir? ==> Join(dir, n.name) in l.ancestors
    ensures !n.Dir? ==> l == Leaf(Join(dir, n.name), anc, n)
    decreases n, 0
  {
    var rel := Join(dir, n.name);
    SegsJoin(dir, n.name);
    if n.Dir? {
      LeavesShape(n.children, rel, anc + [rel], l);
      assert (anc + [rel])[|anc|] == rel;
      assert l.ancestors[|anc|] == rel;
    }
  }

  lemma {:induction false} LeavesShape(entries: seq<Node>, dir: string, anc: seq<string>, l: Leaf)
    requires WellFormed(entries) && l in Leaves(entries, dir, anc)
    ensures Segs(dir) < Segs(l.rel)
    ensures anc <= l.ancestors && !l.node.Dir?
    ensures exists k :: 0 <= k < |entries| && Segs(l.rel)[|Segs(dir)|] == entries[k].name
    decreases entries, 1
  {
    LeafOfEntry(entries, dir, anc, l);
    var k :| 0 <= k < |entries| && l in NodeLeaves(entries[k], dir, anc);
    NodeLeafShape(entries[k], dir, anc, l);
    SegsJoin(dir, entries[k].name);
  }

  /** The leaves of a well-formed tree have pairwise distinct paths. */
  lemma {:induction false} LeavesDistinct(entries: seq<Node>, dir: string, anc: seq<string>)
    requires WellFormed(entries)
    ensures forall i, j :: 0 <= i < j < |Leaves(entries, dir, anc)| ==>
      Leaves(entries, dir, anc)[i].rel != Leaves(entries, dir, anc)[j].rel
    decreases entries, 1
  {
    if entries != [] {
      var head, tail := NodeLeaves(entries[0], dir, anc), Leaves(entries[1..], dir, anc);
      NodeLeavesDistinct(entries[0], dir, anc);
      assert WellFormed(entries[1..]) by {
        forall i, j | 0 <= i < j < |entries[1..]| ensures entries[1..][i].name != entries[1..][j].name {
          assert entries[1..][i] == entries[i + 1] && entries[1..][j] == entries[j + 1];
        }
      }
      LeavesDistinct(entries[1..], dir, anc);
      forall a, b | a in head && b in tail ensures a.rel != b.rel {
        NodeLeafShape(entries[0], dir, anc, a);
        LeavesShape(entries[1..], dir, anc, b);
        var k :| 0 <= k < |entries[1..]| && Segs(b.rel)[|Segs(dir)|] == entries[1..][k].name;
        assert entries[1..][k] == entries[k + 1];
      }
      var all := head + tail;
      forall i, j | 0 <= i < j < |all| ensures all[i].rel != all[j].rel {
        if j < |head| {
          assert all[i] == head[i] && all[j] == head[j];
        } else if i >= |head| {
          assert all[i] == tail[i - |head|] && all[j] == tail[j - |head|];
        } else {
          assert all[i] in head && all[j] in tail;
        }
      }
    }
  }

  lemma {:induction false} NodeLeavesDistinct(n: Node, dir: string, anc: seq<string>)
    requires NodeOk(n)
    ensures forall i, j :: 0 <= i < j < |NodeLeaves(n, dir, anc)| ==>
      NodeLeaves(n, dir, anc)[i].rel != NodeLeaves(n, dir, anc)[j].rel
    decreases n, 2
  {
    if n.Dir? {
      var rel := Join(dir, n.name);
      LeavesDistinct(n.children, rel, anc + [rel]);
    }
  }

  /**
   * The first kept path is that of the first kept leaf: every leaf before it
   * is refused.
   */
  lemma {:induction false} KeptPathsFirst(ls: seq<Leaf>, keep: Leaf -> bool)
    requires KeptPaths(ls, keep) != []
    ensures exists i :: 0 <= i < |ls| && keep(ls[i]) && ls[i].rel == KeptPaths(ls, keep)[0] &&
                        forall j :: 0 <= j < i ==> !keep(ls[j])
  {
    if !keep(ls[0]) {
      KeptPathsFirst(ls[1..], keep);
      var i :| 0 <= i < |ls[1..]| && keep(ls[1..][i]) && ls[1..][i].rel == KeptPaths(ls[1..], keep)[0] &&
               forall j :: 0 <= j < i ==> !keep(ls[1..][j]);
      assert ls[i + 1] == ls[1..][i];
      forall j | 0 <= j < i + 1 ensures !keep(ls[j]) {
        if j > 0 {
          assert ls[j] == ls[1..][j - 1];
        }
      }
    }
  }

  /**
   * What a walk of a listing returns: the first leaf, in walk order, that
   * `stops` accepts (an unlisted directory the walk enters) ends it with that
   * leaf's path; otherwise it returns the paths `keep` accepts, in walk order.
   */
  function Walk(entries: seq<Node>, dir: string, anc: seq<string>, stops: Leaf -> bool, keep: Leaf -> bool): Result<seq<string>> {
    var stopped := KeptPaths(Leaves(entries, dir, anc), stops);
    if stopped == [] then Ok(KeptPaths(Leaves(entries, dir, anc), keep)) else Err(stopped[0])
  }

  /**
   * A walk succeeds exactly when no leaf stops it, and then returns the kept
   * paths; otherwise it fails with the path of the first leaf that stops it.
   */
  lemma WalkMeaning(entries: seq<Node>, dir: string, anc: seq<string>, stops: Leaf -> bool, keep: Leaf -> bool)
    ensures Walk(entries, dir, anc, stops, keep).Ok? <==> forall l :: l in Leaves(entries, dir, anc) ==> !stops(l)
    ensures Walk(entries, dir, anc, stops, keep).Ok? ==>
              forall p :: p in Walk(entries, dir, anc, stops, keep).value <==>
                          exists l :: l in Leaves(entries, dir, anc) && l.rel == p && keep(l)
    ensures Walk(entries, dir, anc, stops, keep).Err? ==>
              exists i :: 0 <= i < |Leaves(entries, dir, anc)| && stops(Leaves(entries, dir, anc)[i]) &&
                Leaves(entries, dir, anc)[i].rel == Walk(entries, dir, anc, stops, keep).path &&
                forall j :: 0 <= j < i ==> !stops(Leaves(entries, dir, anc)[j])
  {
    var ls := Leaves(entries, dir, anc);
    if KeptPaths(ls, stops) == [] {
      forall l | l in ls ensures !stops(l) {
        KeptPathsMember(ls, stops, l.rel);
      }
      forall p ensures p in KeptPaths(ls, keep) <==> exists l :: l in ls && l.rel == p && keep(l) {
        KeptPathsMember(ls, keep, p);
      }
    } else {
      KeptPathsFirst(ls, stops);
    }
  }

  /**
   * Entry `i` stops the walk when the entries before it did not: the walk of
   * the whole listing stops where the walk below entry `i` does.
   */
  lemma KeptFirstAt(entries: seq<Node>, i: nat, dir: string, anc: seq<string>, keep: Leaf -> bool)
    requires i < |entries| && KeptPaths(Leaves(entries[..i], dir, anc), keep) == []
    requires KeptPaths(NodeLeaves(entries[i], dir, anc), keep) != []
    ensures KeptPaths(Leaves(entries, dir, anc), keep) != []
    ensures KeptPaths(Leaves(entries, dir, anc), keep)[0] == KeptPaths(NodeLeaves(entries[i], dir, anc), keep)[0]
  {
    var front, back := entries[..i + 1], entries[i + 1..];
    var here := KeptPaths(NodeLeaves(entries[i], dir, anc), keep);
    var rest := KeptPaths(Leaves(back, dir, anc), keep);
    KeptStep(entries, i, dir, anc, keep);
    assert front + back == entries;
    LeavesAppend(front, back, dir, anc);
    KeptPathsAppend(Leaves(front, dir, anc), Leaves(back, dir, anc), keep);
    assert KeptPaths(Leaves(entries, dir, anc), keep) == [] + here + rest;
    assert ([] + here + rest)[0] == here[0];
  }

  /** The first entry called `name`. */
  function FindEntry(entries: seq<Node>, name: string): (r: Option<Node>)
    ensures r.Some? ==> r.value in entries && r.value.name == name
    ensures r.None? ==> forall n :: n in entries ==> n.name != name
  {
    if entries == [] then None
    else if entries[0].name == name then Some(entries[0])
    else FindEntry(entries[1..], name)
  }

  /** The entry reached by following path segments `segs` from a listing. */
  function Lookup(entries: seq<Node>, segs: seq<string>): Option<Node>
    decreases |segs|
  {
    if segs == [] then None
    else match FindEntry(entries, segs[0])
      case None => None
      case Some(n) =>
        if |segs| == 1 then Some(n)
        else if n.Dir? then Lookup(n.children, segs[1..])
        else None
  }

  /**
   * `fs.readFile(path.join(root, rel), "utf8")`: what reading a regular file
   * or a link yields, and a failure for a directory or a missing path.
   */
  function Read(tree: seq<Node>, rel: string): Option<string> {
    match Lookup(tree, Segs(rel))
    case Some(File(_, c)) => c
    case Some(Link(_, r)) => r
    case _ => None
  }

  /**
   * Every leaf of a well-formed listing is found again by following the
   * segments of its path below the listing's directory.
   */
  lemma {:induction false} LeafLookup(entries: seq<Node>, dir: string, anc: seq<string>, l: Leaf)
    requires WellFormed(entries) && l in Leaves(entries, dir, anc)
    ensures |Segs(dir)| < |Segs(l.rel)|
    ensures Lookup(entries, Segs(l.rel)[|Segs(dir)|..]) == Some(l.node)
    decreases entries
  {
    LeavesShape(entries, dir, anc, l);
    var suffix := Segs(l.rel)[|Segs(dir)|..];
    var e := entries[0];
    if l in NodeLeaves(e, dir, anc) {
      NodeLeafShape(e, dir, anc, l);
      assert FindEntry(entries, suffix[0]) == Some(e);
      var rel := Join(dir, e.name);
      SegsJoin(dir, e.name);
      if e.Dir? {
        LeafLookup(e.children, rel, anc + [rel], l);
        assert suffix[1..] == Segs(l.rel)[|Segs(rel)|..];
        LookupStep(entries, suffix, e);
      } else {
        assert suffix == [e.name];
        LookupStep(entries, suffix, e);
      }
    } else {
      var rest := entries[1..];
      assert WellFormed(rest) by {
        forall i, j | 0 <= i < j < |rest| ensures rest[i].name != rest[j].name {
          assert rest[i] == entries[i + 1] && rest[j] == entries[j + 1];
        }
      }
      LeafLookup(rest, dir, anc, l);
      LeavesShape(rest, dir, anc, l);
      var k :| 0 <= k < |rest| && suffix[0] == rest[k].name;
      assert rest[k] == entries[k + 1];
      assert FindEntry(entries, suffix[0]) == FindEntry(rest, suffix[0]);
      LookupSame(entries, rest, suffix);
    }
  }

  /** Following `segs` from a listing whose entry named `segs[0]` is `e`. */
  lemma LookupStep(entries: seq<Node>, segs: seq<string>, e: Node)
    requires segs != [] && FindEntry(entries, segs[0]) == Some(e)
    ensures Lookup(entries, segs) ==
              if |segs| == 1 then Some(e) else if e.Dir? then Lookup(e.children, segs[1..]) else None
  {
  }

  /** Two listings that agree on the entry named `segs[0]` agree on the whole lookup. */
  lemma LookupSame(a: seq<Node>, b: seq<Node>, segs: seq<string>)
    requires segs != [] && FindEntry(a, segs[0]) == FindEntry(b, segs[0])
    ensures Lookup(a, segs) == Lookup(b, segs)
  {
  }

  /** Reading a leaf of the whole tree gives what that entry holds. */
  lemma LeafRead(tree: seq<Node>, l: Leaf)
    requires WellFormed(tree) && l in Leaves(tree, [], [])
    ensures l.node.File? ==> Read(tree, l.rel) == l.node.content
    ensures l.node.Link? ==> Read(tree, l.rel) == l.node.resolved
    ensures l.node.Unlisted? ==> Read(tree, l.rel).None?
  {
    LeafLookup(tree, [], [], l);
    assert Segs(l.rel)[0..] == Segs(l.rel);
  }

  /** `p => fs.readFile(path.join(root, p), "utf8")` over the tree. */
  function Reader(tree: seq<Node>): (read: string -> Option<string>)
    ensures forall p :: read(p) == Read(tree, p)
  {
    p => Read(tree, p)
  }

  /**
   * The files' contents read one after the other with `read`; the first path
   * whose read fails aborts with that path (see `ReadAllMeaning`).
   */
  function ReadAll(read: string -> Option<string>, files: seq<string>): (r: Result<seq<string>>)
    ensures r.Ok? ==> |r.value| == |files|
    decreases |files|
  {
    if files == [] then Ok([])
    else
      var n := |files| - 1;
      match ReadAll(read, files[..n])
      case Err(p) => Err(p)
      case Ok(cs) =>
        match read(files[n])
        case None => Err(files[n])
        case Some(c) => Ok(cs + [c])
  }

  /**
   * All reads succeed exactly when `ReadAll` does, and then it holds each
   * file's content in order; otherwise it names the first file whose read
   * fails.
   */
  lemma ReadAllMeaning(read: string -> Option<string>, files: seq<string>)
    ensures ReadAll(read, files).Ok? <==> forall i :: 0 <= i < |files| ==> read(files[i]).Some?
    ensures ReadAll(read, files).Ok? ==>
              forall i :: 0 <= i < |files| ==> read(files[i]) == Some(ReadAll(read, files).value[i])
    ensures ReadAll(read, files).Err? ==>
              exists i :: 0 <= i < |files| && files[i] == ReadAll(read, files).path &&
                          read(files[i]).None? && forall j :: 0 <= j < i ==> read(files[j]).Some?
  {
    if ReadAll(read, files).Ok? {
      ReadAllValues(read, files);
    } else {
      ReadAllFirstFailure(read, files);
    }
  }

  lemma {:induction false} ReadAllValues(read: string -> Option<string>, files: seq<string>)
    requires ReadAll(read, files).Ok?
    ensures forall i :: 0 <= i < |files| ==> read(files[i]) == Some(ReadAll(read, files).value[i])
    decreases |files|
  {
    if files != [] {
      var n := |files| - 1;
      var init := files[..n];
      ReadAllValues(read, init);
      var cs, r := ReadAll(read, init).value, ReadAll(read, files).value;
      var last := read(files[n]);
      assert last.Some? && r == cs + [last.value];
      forall i | 0 <= i < |files| ensures read(files[i]) == Some(r[i]) {
        if i < n {
          assert files[i] == init[i] && r[i] == cs[i];
        }
      }
    }
  }

  lemma {:induction false} ReadAllFirstFailure(read: string -> Option<string>, files: seq<string>)
    requires ReadAll(read, files).Err?
    ensures exists i :: 0 <= i < |files| && files[i] == ReadAll(read, files).path &&
                        read(files[i]).None? && forall j :: 0 <= j < i ==> read(files[j]).Some?
    decreases |files|
  {
    var n := |files| - 1;
    var init := files[..n];
    if ReadAll(read, init).Err? {
      ReadAllFirstFailure(read, init);
      var i :| 0 <= i < n && init[i] == ReadAll(read, init).path &&
               read(init[i]).None? && forall j :: 0 <= j < i ==> read(init[j]).Some?;
      assert forall j :: 0 <= j < i ==> files[j] == init[j];
      assert files[i] == init[i];
    } else {
      ReadAllValues(read, init);
      assert forall j :: 0 <= j < n ==> files[j] == init[j];
    }
  }

  /** Once a read fails, reading further files changes nothing. */
  lemma {:induction false} ReadAllStops(read: string -> Option<string>, files: seq<string>, k: nat)
    requires k <= |files| && ReadAll(read, files[..k]).Err?
    ensures ReadAll(read, files) == ReadAll(read, files[..k])
    decreases |files|
  {
    if k < |files| {
      var n := |files| - 1;
      assert files[..n][..k] == files[..k];
      ReadAllStops(read, files[..n], k);
      var init := ReadAll(read, files[..n]);
      assert init.Err? && ReadAll(read, files) == Err(init.path);
    } else {
      assert files[..k] == files;
    }
  }

  /** Reading one more file that succeeds extends the contents read so far. */
  lemma ReadAllStep(read: string -> Option<string>, files: seq<string>, i: nat, contents: seq<string>, c: string)
    requires i < |files| && ReadAll(read, files[..i]) == Ok(contents) && read(files[i]) == Some(c)
    ensures ReadAll(read, files[..i + 1]) == Ok(contents + [c])
  {
    assert files[..i + 1][..i] == files[..i];
  }

  /** The first failing read ends the whole run with its path. */
  lemma ReadAllFails(read: string -> Option<string>, files: seq<string>, i: nat, contents: seq<string>)
    requires i < |files| && ReadAll(read, files[..i]) == Ok(contents) && read(files[i]).None?
    ensures ReadAll(read, files) == Err(files[i])
  {
    assert files[..i + 1][..i] == files[..i];
    ReadAllStops(read, files, i + 1);
  }

  /**
   * `(await collect(root)).sort()`: in a well-formed tree the kept paths,
   * sorted, are in order, each once, and are exactly the kept ones.
   */
  lemma SortedKept(tree: seq<Node>, keep: Leaf -> bool)
    requires WellFormed(tree)
    ensures Sorted(Sort(KeptPaths(Leaves(tree, [], []), keep)))
    ensures Distinct(Sort(KeptPaths(Leaves(tree, [], []), keep)))
    ensures forall p :: p in Sort(KeptPaths(Leaves(tree, [], []), keep)) <==> p in KeptPaths(Leaves(tree, [], []), keep)
  {
    var kept := KeptPaths(Leaves(tree, [], []), keep);
    LeavesDistinct(tree, [], []);
    KeptPathsDistinct(Leaves(tree, [], []), keep);
    SortKeepsDistinct(kept);
    assert forall p :: p in Sort(kept) <==> p in multiset(kept);
  }

  /** A leaf whose read succeeds: a regular file or a link that yields a text. */
  predicate Readable(l: Leaf) {
    (l.node.File? && l.node.content.Some?) || (l.node.Link? && l.node.resolved.Some?)
  }

  /** Reading a leaf of the whole tree succeeds exactly when the leaf is readable. */
  lemma LeafReadable(tree: seq<Node>, l: Leaf)
    requires WellFormed(tree) && l in Leaves(tree, [], [])
    ensures Read(tree, l.rel).Some? <==> Readable(l)
  {
    LeafRead(tree, l);
    LeavesShape(tree, [], [], l);
  }

  /**
   * Reading the sorted kept paths in order succeeds exactly when every kept
   * leaf is readable; otherwise it stops at a kept leaf that is not.
   */
  lemma SortedKeptRead(tree: seq<Node>, keep: Leaf -> bool)
    requires WellFormed(tree)
    ensures ReadAll(Reader(tree), Sort(KeptPaths(Leaves(tree, [], []), keep))).Ok? <==>
            forall l :: l in Leaves(tree, [], []) && keep(l) ==> Readable(l)
    ensures ReadAll(Reader(tree), Sort(KeptPaths(Leaves(tree, [], []), keep))).Err? ==>
            exists l :: l in Leaves(tree, [], []) && keep(l) && !Readable(l) &&
              l.rel == ReadAll(Reader(tree), Sort(KeptPaths(Leaves(tree, [], []), keep))).path
  {
    var files := Sort(KeptPaths(Leaves(tree, [], []), keep));
    ReadAllMeaning(Reader(tree), files);
    SortedKept(tree, keep);
    if ReadAll(Reader(tree), files).Ok? {
      forall l | l in Leaves(tree, [], []) && keep(l) ensures Readable(l) {
        LeafReadable(tree, l);
        KeptPathsMember(Leaves(tree, [], []), keep, l.rel);
        var i :| 0 <= i < |files| && files[i] == l.rel;
        assert Reader(tree)(files[i]).Some?;
      }
    } else {
      var i :| 0 <= i < |files| && files[i] == ReadAll(Reader(tree), files).path && Reader(tree)(files[i]).None?;
      KeptPathsMember(Leaves(tree, [], []), keep, files[i]);
      var l :| l in Leaves(tree, [], []) && l.rel == files[i] && keep(l);
      LeafReadable(tree, l);
    }
  }
}
