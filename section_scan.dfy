/**
 * The scan the code-reference generator makes of its previous output to find
 * sections it may reuse: the multiline, global regular expression
 * `^### (.+?)\n\n```[\s\S]*?\n```\n\n` run with `exec` until it fails, each
 * match recorded in a map from its first group (the file path) to the whole
 * match (the section).
 */
module SectionScan {
  import opened Wrappers
  import opened Text

  /** The literal parts of the expression. */
  const Header: string := "### "
  const Open: string := "\n\n```"
  const Close: string := "\n```\n\n"

  /** `^` in multiline mode: the start of the text or just after a line terminator. */
  predicate AtLineStart(s: string, i: nat) {
    i == 0 || (i <= |s| && IsLineTerminator(s[i - 1]))
  }

  /** The first line terminator at or after `j`, or `|s|` when there is none (see `LineEndFirst`). */
  function LineEnd(s: string, j: nat): (r: nat)
    requires j <= |s|
    ensures j <= r <= |s|
    decreases |s| - j
  {
    if j == |s| || IsLineTerminator(s[j]) then j else LineEnd(s, j + 1)
  }

  lemma {:induction false} LineEndFirst(s: string, j: nat)
    requires j <= |s|
    ensures forall k :: j <= k < LineEnd(s, j) ==> !IsLineTerminator(s[k])
    ensures LineEnd(s, j) < |s| ==> IsLineTerminator(s[LineEnd(s, j)])
    decreases |s| - j
  {
    if j < |s| && !IsLineTerminator(s[j]) {
      LineEndFirst(s, j + 1);
    }
  }

  /** `### ` at `i`. */
  predicate HeaderAt(s: string, i: nat) {
    i + 4 <= |s| && s[i] == '#' && s[i + 1] == '#' && s[i + 2] == '#' && s[i + 3] == ' '
  }

  /** `\n\n```` at `t`: the blank line and the opening fence. */
  predicate OpenAt(s: string, t: nat) {
    t + 5 <= |s| && s[t] == '\n' && s[t + 1] == '\n' && s[t + 2] == '`' && s[t + 3] == '`' && s[t + 4] == '`'
  }

  /** `\n```\n\n` at `k`: the closing fence and the blank line after it. */
  predicate CloseAt(s: string, k: nat) {
    k + 6 <= |s| && s[k] == '\n' && s[k + 1] == '`' && s[k + 2] == '`' && s[k + 3] == '`' &&
    s[k + 4] == '\n' && s[k + 5] == '\n'
  }

  /** A text occurs at `i` exactly when it agrees there character by character. */
  lemma OccursAtChars(s: string, pat: string, i: nat)
    ensures OccursAt(s, pat, i) <==> i + |pat| <= |s| && forall q :: 0 <= q < |pat| ==> s[i + q] == pat[q]
  {
    if i + |pat| <= |s| {
      var w := s[i..i + |pat|];
      forall q | 0 <= q < |pat| ensures w[q] == s[i + q] { }
    }
  }

  lemma HeaderAtIff(s: string, i: nat)
    ensures HeaderAt(s, i) <==> OccursAt(s, Header, i)
  {
    OccursAtChars(s, Header, i);
  }

  lemma OpenAtIff(s: string, t: nat)
    ensures OpenAt(s, t) <==> OccursAt(s, Open, t)
  {
    OccursAtChars(s, Open, t);
  }

  lemma CloseAtIff(s: string, k: nat)
    ensures CloseAt(s, k) <==> OccursAt(s, Close, k)
  {
    OccursAtChars(s, Close, k);
  }

  /** The first closing fence at or after `j` (see `FindCloseFirst`). */
  function FindClose(s: string, j: nat): (r: Option<nat>)
    ensures r.Some? ==> j <= r.value && CloseAt(s, r.value)
    decreases |s| - j
  {
    if j + 6 > |s| then None
    else if CloseAt(s, j) then Some(j)
    else FindClose(s, j + 1)
  }

  lemma {:induction false} FindCloseFirst(s: string, j: nat)
    ensures FindClose(s, j).Some? ==> forall k: nat :: j <= k < FindClose(s, j).value ==> !CloseAt(s, k)
    ensures FindClose(s, j).None? ==> forall k: nat :: j <= k ==> !CloseAt(s, k)
    decreases |s| - j
  {
    if j + 6 <= |s| && !CloseAt(s, j) {
      FindCloseFirst(s, j + 1);
    }
  }

  /**
   * What every match looks like: a header line `### path` whose path is
   * non-empty and free of line terminators, an opening fence right after the
   * blank line, and a closing fence followed by a blank line at the end.
   */
  predicate Section(sec: string, path: string) {
    path != [] && SingleLine(path) && StartsWith(sec, Header + path + Open) && EndsWith(sec, Close)
  }

  /** A match of the expression: where it starts, its first group, and the index just past it. */
  datatype Match = Match(start: nat, path: string, end: nat)

  /**
   * The match that starts exactly at `i`, if any.  The lazy group `(.+?)`
   * cannot cross a line terminator, so it runs to the first one, which must
   * open `\n\n```` and must not be the group's first character; the lazy
   * `[\s\S]*?` then stops at the first closing `\n```\n\n`.
   */
  function MatchAt(s: string, i: nat): (r: Option<Match>)
    requires i <= |s|
    ensures r.Some? ==> r.value.start == i && i + 15 < r.value.end <= |s|
  {
    if !AtLineStart(s, i) || !HeaderAt(s, i) then None
    else
      var t := LineEnd(s, i + 4);
      if t == i + 4 || !OpenAt(s, t) then None
      else match FindClose(s, t + 5)
        case None => None
        case Some(k) => Some(Match(i, s[i + 4..t], k + 6))
  }

  /** Every match has the shape of a section, filed under its header path. */
  lemma MatchAtShape(s: string, i: nat)
    requires i <= |s| && MatchAt(s, i).Some?
    ensures Section(s[i..MatchAt(s, i).value.end], MatchAt(s, i).value.path)
  {
    var t := LineEnd(s, i + 4);
    var k := FindClose(s, t + 5).value;
    assert MatchAt(s, i).value == Match(i, s[i + 4..t], k + 6);
    LineEndFirst(s, i + 4);
    MatchShape(s, i, t, k);
  }

  lemma MatchShape(s: string, i: nat, t: nat, k: nat)
    requires i + 4 < t && t + 5 <= k && HeaderAt(s, i) && OpenAt(s, t) && CloseAt(s, k)
    requires forall q :: i + 4 <= q < t ==> !IsLineTerminator(s[q])
    ensures Section(s[i..k + 6], s[i + 4..t])
  {
    HeaderAtIff(s, i);
    OpenAtIff(s, t);
    CloseAtIff(s, k);
    var sec, path := s[i..k + 6], s[i + 4..t];
    assert sec[..|Header + path + Open|] == s[i..i + 4] + s[i + 4..t] + s[t..t + 5];
    assert sec[|sec| - |Close|..] == s[k..k + 6];
    forall q | 0 <= q < |path| ensures !IsLineTerminator(path[q]) {
      assert path[q] == s[i + 4 + q];
    }
  }

  /**
   * `regex.exec(s)` with `lastIndex` at `i`: the leftmost match starting at or
   * after `i`, or none.
   */
  function NextMatch(s: string, i: nat): (r: Option<Match>)
    requires i <= |s|
    ensures r.Some? ==> i <= r.value.start <= |s| && MatchAt(s, r.value.start) == r
    decreases |s| - i
  {
    if MatchAt(s, i).Some? then MatchAt(s, i)
    else if i == |s| then None
    else NextMatch(s, i + 1)
  }

  /** The search finds the leftmost match: nothing matches before what it finds, nothing at all when it fails. */
  lemma NextMatchFirst(s: string, i: nat)
    requires i <= |s|
    ensures NextMatch(s, i).Some? ==> forall p :: i <= p < NextMatch(s, i).value.start ==> MatchAt(s, p).None?
    ensures NextMatch(s, i).None? ==> forall p :: i <= p <= |s| ==> MatchAt(s, p).None?
  {
    if NextMatch(s, i).Some? {
      NothingBefore(s, i);
    } else {
      NothingAfter(s, i);
    }
  }

  lemma {:induction false} NothingBefore(s: string, i: nat)
    requires i <= |s| && NextMatch(s, i).Some?
    ensures forall p :: i <= p < NextMatch(s, i).value.start ==> MatchAt(s, p).None?
    decreases |s| - i
  {
    if MatchAt(s, i).None? {
      NothingBefore(s, i + 1);
    }
  }

  lemma {:induction false} NothingAfter(s: string, i: nat)
    requires i <= |s| && NextMatch(s, i).None?
    ensures forall p :: i <= p <= |s| ==> MatchAt(s, p).None?
    decreases |s| - i
  {
    if i < |s| {
      NothingAfter(s, i + 1);
    }
  }

  /**
   * The (path, section) pairs that successive `exec` calls yield from
   * `lastIndex` `i` on: each search resumes where the previous match ended.
   */
  function Scan(s: string, i: nat): (r: seq<(string, string)>)
    requires i <= |s|
    decreases |s| - i
  {
    match NextMatch(s, i)
    case None => []
    case Some(m) => [(m.path, s[m.start..m.end])] + Scan(s, m.end)
  }

  /** Every pair the scan yields is a section filed under its header path. */
  lemma {:induction false} ScanShaped(s: string, i: nat)
    requires i <= |s|
    ensures forall k :: 0 <= k < |Scan(s, i)| ==> Section(Scan(s, i)[k].1, Scan(s, i)[k].0)
    decreases |s| - i
  {
    var m := NextMatch(s, i);
    if m.Some? {
      var r, p := Scan(s, i), (m.value.path, s[m.value.start..m.value.end]);
      MatchAtShape(s, m.value.start);
      ScanShaped(s, m.value.end);
      assert r == [p] + Scan(s, m.value.end);
      forall k | 0 <= k < |r| ensures Section(r[k].1, r[k].0) {
        if k > 0 {
          assert r[k] == Scan(s, m.value.end)[k - 1];
        }
      }
    }
  }

  /** `map.set(key, value)` for each pair in order: a later key overwrites an earlier one. */
  function Overlay(m: map<string, string>, ps: seq<(string, string)>): (r: map<string, string>)
    ensures forall key :: key in r <==> key in m || exists j :: 0 <= j < |ps| && ps[j].0 == key
    decreases |ps|
  {
    if ps == [] then m
    else
      var r := Overlay(m[ps[0].0 := ps[0].1], ps[1..]);
      assert forall j :: 0 <= j < |ps[1..]| ==> ps[1..][j] == ps[j + 1];
      r
  }

  /** The map the scan of `s` builds, starting from an empty map. */
  function SectionsOf(s: string): map<string, string> {
    Overlay(map[], Scan(s, 0))
  }

  /**
   * The loop over `regex.exec(existing)`: every match is stored under its
   * first group, and the loop stops at the first failed search.
   */
  method ScanSections(s: string) returns (sections: map<string, string>)
    ensures sections == SectionsOf(s)
  {
    sections := map[];
    var lastIndex := 0;
    var found := NextMatch(s, lastIndex);
    while found.Some?
      invariant lastIndex <= |s| && found == NextMatch(s, lastIndex)
      invariant Overlay(sections, Scan(s, lastIndex)) == SectionsOf(s)
      decreases |s| - lastIndex
    {
      var m := found.value;
      sections := sections[m.path := s[m.start..m.end]];
      lastIndex := m.end;
      found := NextMatch(s, lastIndex);
    }
  }

  /** The value stored under a key is the one of its last pair; earlier pairs with that key are lost. */
  lemma {:induction false} OverlayLatest(m: map<string, string>, ps: seq<(string, string)>, j: nat)
    requires j < |ps| && forall k :: j < k < |ps| ==> ps[k].0 != ps[j].0
    ensures Overlay(m, ps)[ps[j].0] == ps[j].1
    decreases |ps|
  {
    if j == 0 {
      OverlayKeeps(m[ps[0].0 := ps[0].1], ps[1..], ps[0].0);
    } else {
      assert forall k :: j - 1 < k < |ps[1..]| ==> ps[1..][k] == ps[k + 1];
      OverlayLatest(m[ps[0].0 := ps[0].1], ps[1..], j - 1);
    }
  }

  /** A key no pair mentions keeps its value. */
  lemma {:induction false} OverlayKeeps(m: map<string, string>, ps: seq<(string, string)>, key: string)
    requires key in m && forall k :: 0 <= k < |ps| ==> ps[k].0 != key
    ensures Overlay(m, ps)[key] == m[key]
    decreases |ps|
  {
    if ps != [] {
      assert forall k :: 0 <= k < |ps[1..]| ==> ps[1..][k] == ps[k + 1];
      OverlayKeeps(m[ps[0].0 := ps[0].1], ps[1..], key);
    }
  }

  /** Every value in the result comes from the starting map or from a pair with its key. */
  lemma {:induction false} OverlayValues(m: map<string, string>, ps: seq<(string, string)>, key: string)
    requires key in Overlay(m, ps)
    ensures (key in m && Overlay(m, ps)[key] == m[key]) ||
            exists j :: 0 <= j < |ps| && ps[j] == (key, Overlay(m, ps)[key])
    decreases |ps|
  {
    if ps != [] {
      var m' := m[ps[0].0 := ps[0].1];
      OverlayValues(m', ps[1..], key);
      var v := Overlay(m, ps)[key];
      if key in m' && v == m'[key] {
        if key == ps[0].0 {
          assert ps[0] == (key, v);
        }
      } else {
        var j :| 0 <= j < |ps[1..]| && ps[1..][j] == (key, v);
        assert ps[j + 1] == (key, v);
      }
    }
  }

  /**
   * Whatever the previous output holds, every section the scan stores is
   * shaped like a rendered block and filed under its own header path.
   */
  lemma SectionsShaped(s: string, key: string)
    requires key in SectionsOf(s)
    ensures Section(SectionsOf(s)[key], key)
  {
    OverlayValues(map[], Scan(s, 0), key);
    ScanShaped(s, 0);
  }

  /** A section made of a header for `path`, the opening fence, `body` and the closing fence. */
  function Block(path: string, body: string): string {
    Header + path + Open + body + Close
  }

  /** A block for a non-empty single-line path has the shape of a match. */
  lemma BlockIsSection(path: string, body: string)
    requires path != [] && SingleLine(path)
    ensures Section(Block(path, body), path)
  {
    var r := Block(path, body);
    assert r[..|Header + path + Open|] == Header + path + Open;
    assert r[|r| - |Close|..] == Close;
  }

  /** No closing fence starts inside `body` when the closing fence follows it. */
  predicate ClosesOnce(body: string) {
    forall q :: 0 <= q < |body| ==> !CloseAt(body + Close, q)
  }

  /** A body without backticks cannot hold a closing fence. */
  lemma NoBacktickClosesOnce(body: string)
    requires '`' !in body
    ensures ClosesOnce(body)
  {
    forall q | 0 <= q < |body| ensures !CloseAt(body + Close, q) {
      if q + 1 < |body| {
        assert (body + Close)[q + 1] == body[q + 1];
      } else {
        assert (body + Close)[q + 1] == Close[0];
      }
    }
  }

  /** `t` holds `x` from index `i` on. */
  predicate HoldsAt(t: string, x: string, i: nat) {
    i + |x| <= |t| && t[i..i + |x|] == x
  }

  lemma HoldsAtPart(t: string, x: string, i: nat, a: nat, b: nat)
    requires HoldsAt(t, x, i) && a <= b <= |x|
    ensures HoldsAt(t, x[a..b], i + a)
  {
    forall k | 0 <= k < b - a ensures t[i + a..i + b][k] == x[a..b][k] {
      assert t[i + a + k] == t[i..i + |x|][a + k];
    }
  }

  lemma HoldsAtConcat(pre: string, x: string, rest: string)
    ensures HoldsAt(pre + x + rest, x, |pre|)
  {
    assert (pre + x + rest)[|pre|..|pre| + |x|] == x;
  }

  /**
   * A block whose body does not close early is matched exactly, wherever a
   * line starts: the match reports its path and ends where the block ends.
   */
  lemma BlockMatched(s: string, i: nat, path: string, body: string)
    requires AtLineStart(s, i) && HoldsAt(s, Block(path, body), i)
    requires path != [] && SingleLine(path) && ClosesOnce(body)
    ensures MatchAt(s, i) == Some(Match(i, path, i + |Block(path, body)|))
  {
    var t, c, e := i + 4 + |path|, i + 9 + |path| + |body|, i + |Block(path, body)|;
    BlockParts(s, i, path, body);
    BlockLength(path, body);
    MatchOfParts(s, i, path, t, c, e);
  }

  lemma BlockLength(path: string, body: string)
    ensures |Block(path, body)| == |path| + |body| + 15
  {
  }

  /** The match at `i` when its pieces are known. */
  lemma MatchOfParts(s: string, i: nat, path: string, t: nat, c: nat, e: nat)
    requires i + 4 < t <= |s| && AtLineStart(s, i) && HeaderAt(s, i) && s[i + 4..t] == path
    requires LineEnd(s, i + 4) == t && OpenAt(s, t) && FindClose(s, t + 5) == Some(c) && e == c + 6
    ensures MatchAt(s, i) == Some(Match(i, path, e))
  {
  }

  /** What the block at `i` tells the pieces of the expression. */
  lemma BlockParts(s: string, i: nat, path: string, body: string)
    requires HoldsAt(s, Block(path, body), i)
    requires path != [] && SingleLine(path) && ClosesOnce(body)
    ensures HeaderAt(s, i) && LineEnd(s, i + 4) == i + 4 + |path|
    ensures OpenAt(s, i + 4 + |path|) && FindClose(s, i + 9 + |path|) == Some(i + 9 + |path| + |body|)
    ensures s[i + 4..i + 4 + |path|] == path
  {
    HeadPieces(s, i, path, body);
    TailPieces(s, i, path, body);
  }

  lemma HeadPieces(s: string, i: nat, path: string, body: string)
    requires HoldsAt(s, Block(path, body), i) && SingleLine(path)
    ensures HeaderAt(s, i) && LineEnd(s, i + 4) == i + 4 + |path|
    ensures s[i + 4..i + 4 + |path|] == path
  {
    HeaderPiece(s, i, path, body);
    PathPiece(s, i, path, body);
  }

  lemma HeaderPiece(s: string, i: nat, path: string, body: string)
    requires HoldsAt(s, Block(path, body), i)
    ensures HeaderAt(s, i)
  {
    BlockOffsets(path, body);
    Piece(s, Block(path, body), i, 0, Header);
    HeaderAtIff(s, i);
  }

  lemma PathPiece(s: string, i: nat, path: string, body: string)
    requires HoldsAt(s, Block(path, body), i) && SingleLine(path)
    ensures LineEnd(s, i + 4) == i + 4 + |path| && s[i + 4..i + 4 + |path|] == path
  {
    var b := Block(path, body);
    BlockOffsets(path, body);
    Piece(s, b, i, 4, path + "\n");
    LineEndAt(s, i + 4, path);
    Piece(s, b, i, 4, path);
  }

  lemma TailPieces(s: string, i: nat, path: string, body: string)
    requires HoldsAt(s, Block(path, body), i) && ClosesOnce(body)
    ensures OpenAt(s, i + 4 + |path|) && FindClose(s, i + 9 + |path|) == Some(i + 9 + |path| + |body|)
  {
    OpenPiece(s, i, path, body);
    ClosePiece(s, i, path, body);
  }

  lemma OpenPiece(s: string, i: nat, path: string, body: string)
    requires HoldsAt(s, Block(path, body), i)
    ensures OpenAt(s, i + 4 + |path|)
  {
    BlockOffsets(path, body);
    Piece(s, Block(path, body), i, 4 + |path|, Open);
    OpenAtIff(s, i + 4 + |path|);
  }

  lemma ClosePiece(s: string, i: nat, path: string, body: string)
    requires HoldsAt(s, Block(path, body), i) && ClosesOnce(body)
    ensures FindClose(s, i + 9 + |path|) == Some(i + 9 + |path| + |body|)
  {
    BlockOffsets(path, body);
    Piece(s, Block(path, body), i, 9 + |path|, body + Close);
    FirstClose(s, i + 9 + |path|, body);
  }

  /** Where the pieces of a block lie in it. */
  lemma BlockOffsets(path: string, body: string)
    ensures |Block(path, body)| == |path| + |body| + 15
    ensures Block(path, body)[..4] == Header && Block(path, body)[4..5 + |path|] == path + "\n"
    ensures Block(path, body)[4..4 + |path|] == path && Block(path, body)[4 + |path|..9 + |path|] == Open
    ensures Block(path, body)[9 + |path|..|path| + |body| + 15] == body + Close
  {
    var b := Block(path, body);
    assert b == Header + path + Open + (body + Close);
  }

  /** A piece `x` of `b` at offset `a` sits at `i + a` when `b` sits at `i`. */
  lemma Piece(s: string, b: string, i: nat, a: nat, x: string)
    requires HoldsAt(s, b, i) && a + |x| <= |b| && b[a..a + |x|] == x
    ensures HoldsAt(s, x, i + a) && s[i + a..i + a + |x|] == x
  {
    HoldsAtPart(s, b, i, a, a + |x|);
  }

  lemma LineEndAt(s: string, j: nat, path: string)
    requires HoldsAt(s, path + "\n", j) && SingleLine(path)
    ensures LineEnd(s, j) == j + |path|
  {
    LineEndFirst(s, j);
    assert s[j + |path|] == s[j..j + |path| + 1][|path|] == '\n';
    forall k | j <= k < j + |path| ensures !IsLineTerminator(s[k]) {
      assert s[k] == s[j..j + |path| + 1][k - j] == path[k - j];
    }
  }

  lemma FirstClose(s: string, j: nat, body: string)
    requires HoldsAt(s, body + Close, j) && ClosesOnce(body)
    ensures FindClose(s, j) == Some(j + |body|)
  {
    var r := FindClose(s, j);
    FindCloseFirst(s, j);
    CloseShift(s, body + Close, j, |body|);
    assert CloseAt(body + Close, |body|) by {
      assert (body + Close)[|body|..] == Close;
    }
    if r.Some? && r.value < j + |body| {
      CloseShift(s, body + Close, j, r.value - j);
      assert false;
    }
  }

  /** Where `x` sits in `t`, a closing fence starts in `t` exactly where one starts in `x`. */
  lemma CloseShift(t: string, x: string, i: nat, q: nat)
    requires HoldsAt(t, x, i) && q + 6 <= |x|
    ensures CloseAt(t, i + q) <==> CloseAt(x, q)
  {
    forall k | q <= k < q + 6 ensures t[i + k] == x[k] {
      assert t[i..i + |x|][k] == t[i + k];
    }
  }

  /** Blocks written one after the other, each from a (path, body) pair. */
  function Blocks(ps: seq<(string, string)>): string
    decreases |ps|
  {
    if ps == [] then [] else Block(ps[0].0, ps[0].1) + Blocks(ps[1..])
  }

  /** The (path, section) pairs those blocks are meant to give back. */
  function Rendered(ps: seq<(string, string)>): seq<(string, string)> {
    seq(|ps|, k requires 0 <= k < |ps| => (ps[k].0, Block(ps[k].0, ps[k].1)))
  }

  /** Every path is a non-empty single line and no body closes early. */
  predicate Recoverable(ps: seq<(string, string)>) {
    forall k :: 0 <= k < |ps| ==> ps[k].0 != [] && SingleLine(ps[k].0) && ClosesOnce(ps[k].1)
  }

  /** The blocks for `ps` lie one after the other in `s` from index `i` on. */
  predicate Laid(s: string, i: nat, ps: seq<(string, string)>)
    decreases |ps|
  {
    if ps == [] then i <= |s|
    else HoldsAt(s, Block(ps[0].0, ps[0].1), i) && Laid(s, i + |Block(ps[0].0, ps[0].1)|, ps[1..])
  }

  /** Blocks written together lie one after the other. */
  lemma {:induction false} BlocksLaid(s: string, i: nat, ps: seq<(string, string)>)
    requires HoldsAt(s, Blocks(ps), i)
    ensures Laid(s, i, ps)
    decreases |ps|
  {
    if ps != [] {
      var b, bs := Block(ps[0].0, ps[0].1), Blocks(ps[1..]);
      assert Blocks(ps) == b + bs;
      Piece(s, Blocks(ps), i, 0, b);
      Piece(s, Blocks(ps), i, |b|, bs);
      BlocksLaid(s, i + |b|, ps[1..]);
    }
  }

  /** Where each block starts when the blocks for `ps` are laid from `i` on; the last entry is where they end. */
  function Starts(i: nat, ps: seq<(string, string)>): (r: seq<nat>)
    ensures |r| == |ps| + 1 && r[0] == i
    decreases |ps|
  {
    if ps == [] then [i] else [i] + Starts(i + |Block(ps[0].0, ps[0].1)|, ps[1..])
  }

  /** The blocks end where the last start says. */
  lemma {:induction false} StartsLast(i: nat, ps: seq<(string, string)>)
    ensures Starts(i, ps)[|ps|] == i + |Blocks(ps)|
    decreases |ps|
  {
    if ps != [] {
      var b := Block(ps[0].0, ps[0].1);
      assert Starts(i, ps) == [i] + Starts(i + |b|, ps[1..]);
      assert Blocks(ps) == b + Blocks(ps[1..]);
      StartsLast(i + |b|, ps[1..]);
    }
  }

  lemma {:induction false} StartsStep(i: nat, ps: seq<(string, string)>, k: nat)
    requires k < |ps|
    ensures Starts(i, ps)[k + 1] == Starts(i, ps)[k] + |Block(ps[k].0, ps[k].1)|
    decreases k
  {
    if k > 0 {
      StartsStep(i + |Block(ps[0].0, ps[0].1)|, ps[1..], k - 1);
    }
  }

  /** The `k`-th block lies where `Starts` says. */
  lemma {:induction false} LaidAt(s: string, i: nat, ps: seq<(string, string)>, k: nat)
    requires Laid(s, i, ps) && k < |ps|
    ensures HoldsAt(s, Block(ps[k].0, ps[k].1), Starts(i, ps)[k])
    decreases k
  {
    if k > 0 {
      LaidAt(s, i + |Block(ps[0].0, ps[0].1)|, ps[1..], k - 1);
    }
  }

  /** A block ends a line. */
  lemma BlockEndsLine(s: string, j: nat, path: string, body: string)
    requires HoldsAt(s, Block(path, body), j)
    ensures AtLineStart(s, j + |Block(path, body)|)
  {
    var b := Block(path, body);
    Piece(s, b, j, |b| - 1, b[|b| - 1..]);
  }

  /** One step of the scan over laid blocks: the `k`-th block is found, and the scan resumes after it. */
  lemma ScanStep(s: string, i: nat, ps: seq<(string, string)>, k: nat)
    requires AtLineStart(s, i) && Laid(s, i, ps) && Recoverable(ps) && k < |ps|
    ensures Starts(i, ps)[k] < Starts(i, ps)[k + 1] <= |s|
    ensures Scan(s, Starts(i, ps)[k]) == [Rendered(ps)[k]] + Scan(s, Starts(i, ps)[k + 1])
  {
    var x := Starts(i, ps);
    BlockAtLineStart(s, i, ps, k);
    assert Rendered(ps)[k] == (ps[k].0, Block(ps[k].0, ps[k].1));
    ScanOneBlock(s, x[k], ps[k].0, ps[k].1, x[k + 1]);
  }

  /** The `k`-th block lies at a line start, and the next one starts right after it. */
  lemma BlockAtLineStart(s: string, i: nat, ps: seq<(string, string)>, k: nat)
    requires AtLineStart(s, i) && Laid(s, i, ps) && k < |ps|
    ensures AtLineStart(s, Starts(i, ps)[k]) && HoldsAt(s, Block(ps[k].0, ps[k].1), Starts(i, ps)[k])
    ensures Starts(i, ps)[k + 1] == Starts(i, ps)[k] + |Block(ps[k].0, ps[k].1)|
  {
    var x := Starts(i, ps);
    LaidAt(s, i, ps, k);
    StartsStep(i, ps, k);
    if k > 0 {
      LaidAt(s, i, ps, k - 1);
      StartsStep(i, ps, k - 1);
      BlockEndsLine(s, x[k - 1], ps[k - 1].0, ps[k - 1].1);
    }
  }

  /** Successive values that each peel one element off give the whole run of elements. */
  lemma {:induction false} Telescope<T>(f: nat -> seq<T>, x: seq<nat>, r: seq<T>, k: nat)
    requires |x| == |r| + 1 && k <= |r|
    requires forall j :: k <= j < |r| ==> f(x[j]) == [r[j]] + f(x[j + 1])
    ensures f(x[k]) == r[k..] + f(x[|r|])
    decreases |r| - k
  {
    if k < |r| {
      Telescope(f, x, r, k + 1);
      assert r[k..] == [r[k]] + r[k + 1..];
    }
  }

  /** Scanning recoverable blocks laid from a line start gives back each block under its path, in order. */
  lemma ScanBlocks(s: string, i: nat, ps: seq<(string, string)>)
    requires AtLineStart(s, i) && Laid(s, i, ps) && Recoverable(ps)
    ensures Starts(i, ps)[|ps|] <= |s| && Scan(s, i) == Rendered(ps) + Scan(s, Starts(i, ps)[|ps|])
  {
    var x, r := Starts(i, ps), Rendered(ps);
    var f := (p: nat) => if p <= |s| then Scan(s, p) else [];
    if ps != [] {
      ScanStep(s, i, ps, |ps| - 1);
    }
    forall j | 0 <= j < |ps| ensures f(x[j]) == [r[j]] + f(x[j + 1]) {
      ScanStep(s, i, ps, j);
      StartsStep(i, ps, j);
    }
    Telescope(f, x, r, 0);
    assert r[0..] == r;
  }

  /** One recoverable block at a line start is scanned as one pair, and the scan resumes where it ends. */
  lemma ScanOneBlock(s: string, i: nat, path: string, body: string, e: nat)
    requires AtLineStart(s, i) && HoldsAt(s, Block(path, body), i) && e == i + |Block(path, body)|
    requires path != [] && SingleLine(path) && ClosesOnce(body)
    ensures e <= |s| && Scan(s, i) == [(path, Block(path, body))] + Scan(s, e)
  {
    BlockMatched(s, i, path, body);
    ScanFound(s, i, Match(i, path, e));
    Piece(s, Block(path, body), i, 0, Block(path, body));
  }

  /** A line that starts no section: it holds no line terminator and does not begin with `### `. */
  predicate Quiet(line: string) {
    SingleLine(line) && !StartsWith(line, Header)
  }

  /** Lines, each followed by a line feed. */
  function Lines(ls: seq<string>): string
    decreases |ls|
  {
    if ls == [] then [] else ls[0] + "\n" + Lines(ls[1..])
  }

  lemma {:induction false} LinesAppend(a: seq<string>, b: seq<string>)
    ensures Lines(a + b) == Lines(a) + Lines(b)
    decreases |a|
  {
    if a != [] {
      assert (a + b)[1..] == a[1..] + b;
      LinesAppend(a[1..], b);
    } else {
      assert a + b == b;
    }
  }

  /** Non-empty lines end with a line feed. */
  lemma {:induction false} LinesLast(ls: seq<string>)
    requires ls != []
    ensures |Lines(ls)| > 0 && Lines(ls)[|Lines(ls)| - 1] == '\n'
    decreases |ls|
  {
    if ls[1..] != [] {
      LinesLast(ls[1..]);
    }
  }

  /** No match starts anywhere on a quiet line. */
  lemma QuietLine(s: string, i: nat, line: string)
    requires HoldsAt(s, line + "\n", i) && Quiet(line)
    ensures forall p :: i <= p <= i + |line| ==> MatchAt(s, p).None?
  {
    forall p | i <= p <= i + |line| ensures MatchAt(s, p).None? {
      if p == i {
        if |line| >= 4 {
          Piece(s, line + "\n", i, 0, line[..4]);
          HeaderAtIff(s, i);
        } else {
          assert s[i + |line|] == (line + "\n")[|line|] == '\n';
        }
      } else {
        assert s[p - 1] == (line + "\n")[p - 1 - i] == line[p - 1 - i];
      }
    }
  }

  /** No match starts anywhere on quiet lines. */
  lemma {:induction false} QuietLines(s: string, i: nat, ls: seq<string>)
    requires HoldsAt(s, Lines(ls), i) && forall k :: 0 <= k < |ls| ==> Quiet(ls[k])
    ensures forall p :: i <= p < i + |Lines(ls)| ==> MatchAt(s, p).None?
    decreases |ls|
  {
    if ls != [] {
      var first, rest := ls[0] + "\n", Lines(ls[1..]);
      assert Lines(ls) == first + rest;
      Piece(s, Lines(ls), i, 0, first);
      Piece(s, Lines(ls), i, |first|, rest);
      QuietLine(s, i, ls[0]);
      assert forall k :: 0 <= k < |ls[1..]| ==> ls[1..][k] == ls[k + 1];
      QuietLines(s, i + |first|, ls[1..]);
    }
  }

  /** A search from `i` finds what a search from `j` finds when nothing matches in between. */
  lemma NextMatchSkip(s: string, i: nat, j: nat)
    requires i <= j <= |s| && forall p :: i <= p < j ==> MatchAt(s, p).None?
    ensures NextMatch(s, i) == NextMatch(s, j)
  {
    var a, b := NextMatch(s, i), NextMatch(s, j);
    NextMatchFirst(s, i);
    NextMatchFirst(s, j);
    if a.Some? {
      assert a.value.start >= j;
      assert b.Some? && b.value.start == a.value.start;
    }
  }

  /** The scan from `i` goes over quiet lines without a match. */
  lemma ScanSkipsQuiet(s: string, i: nat, ls: seq<string>)
    requires HoldsAt(s, Lines(ls), i) && forall k :: 0 <= k < |ls| ==> Quiet(ls[k])
    ensures Scan(s, i) == Scan(s, i + |Lines(ls)|)
  {
    var j := i + |Lines(ls)|;
    assert NextMatch(s, i) == NextMatch(s, j) by {
      QuietLines(s, i, ls);
      NextMatchSkip(s, i, j);
    }
    ScanSameSearch(s, i, j);
  }

  lemma ScanSameSearch(s: string, i: nat, j: nat)
    requires i <= |s| && j <= |s| && NextMatch(s, i) == NextMatch(s, j)
    ensures Scan(s, i) == Scan(s, j)
  {
  }

  /** One step of the scan: the match found from `i`, then the scan from its end. */
  lemma ScanFound(s: string, i: nat, m: Match)
    requires i <= |s| && NextMatch(s, i) == Some(m)
    ensures Scan(s, i) == [(m.path, s[m.start..m.end])] + Scan(s, m.end)
  {
  }

  /** Nothing is found at the end of the text. */
  lemma ScanAtEnd(s: string)
    ensures Scan(s, |s|) == []
  {
    assert MatchAt(s, |s|).None?;
  }

  /**
   * A text made of quiet lines followed by recoverable blocks is scanned into
   * exactly those blocks, each under its path, in order.
   */
  lemma ScanDocument(ls: seq<string>, ps: seq<(string, string)>)
    requires ls != [] && (forall k :: 0 <= k < |ls| ==> Quiet(ls[k])) && Recoverable(ps)
    ensures Scan(Lines(ls) + Blocks(ps), 0) == Rendered(ps)
  {
    QuietPrefix(ls, Blocks(ps));
    BlocksAfter(Lines(ls), ps);
  }

  /** The scan of quiet lines and whatever follows them starts after the lines, at a line start. */
  lemma QuietPrefix(ls: seq<string>, rest: string)
    requires ls != [] && forall k :: 0 <= k < |ls| ==> Quiet(ls[k])
    ensures AtLineStart(Lines(ls) + rest, |Lines(ls)|)
    ensures Scan(Lines(ls) + rest, 0) == Scan(Lines(ls) + rest, |Lines(ls)|)
  {
    var head, s := Lines(ls), Lines(ls) + rest;
    assert HoldsAt(s, head, 0) by {
      HoldsAtConcat([], head, rest);
      assert [] + head + rest == s;
    }
    ScanSkipsQuiet(s, 0, ls);
    LinesLast(ls);
    assert s[|head| - 1] == head[|head| - 1];
  }

  /** Blocks after a line start are scanned into exactly those blocks. */
  lemma BlocksAfter(head: string, ps: seq<(string, string)>)
    requires AtLineStart(head + Blocks(ps), |head|) && Recoverable(ps)
    ensures Scan(head + Blocks(ps), |head|) == Rendered(ps)
  {
    var s := head + Blocks(ps);
    HoldsAtConcat(head, Blocks(ps), []);
    assert head + Blocks(ps) + [] == s;
    ScanTrailingBlocks(s, |head|, ps);
  }

  /** Recoverable blocks that run from a line start to the end of the text are scanned into exactly those blocks. */
  lemma ScanTrailingBlocks(s: string, i: nat, ps: seq<(string, string)>)
    requires AtLineStart(s, i) && HoldsAt(s, Blocks(ps), i) && i + |Blocks(ps)| == |s| && Recoverable(ps)
    ensures Scan(s, i) == Rendered(ps)
  {
    BlocksLaid(s, i, ps);
    ScanBlocks(s, i, ps);
    StartsLast(i, ps);
    ScanAtEnd(s);
  }

  /**
   * The sections stored for such a text when the paths are distinct: each
   * path maps to its whole block, and no other key is stored.
   */
  lemma SectionsOfDocument(ls: seq<string>, ps: seq<(string, string)>)
    requires ls != [] && (forall k :: 0 <= k < |ls| ==> Quiet(ls[k])) && Recoverable(ps)
    requires forall j, k :: 0 <= j < k < |ps| ==> ps[j].0 != ps[k].0
    ensures forall key :: key in SectionsOf(Lines(ls) + Blocks(ps)) <==> exists k :: 0 <= k < |ps| && ps[k].0 == key
    ensures forall k :: 0 <= k < |ps| ==>
              ps[k].0 in SectionsOf(Lines(ls) + Blocks(ps)) &&
              SectionsOf(Lines(ls) + Blocks(ps))[ps[k].0] == Block(ps[k].0, ps[k].1)
  {
    var r := Rendered(ps);
    ScanDocument(ls, ps);
    assert forall k :: 0 <= k < |ps| ==> r[k].0 == ps[k].0;
    forall k | 0 <= k < |ps| ensures Overlay(map[], r)[ps[k].0] == Block(ps[k].0, ps[k].1) {
      OverlayLatest(map[], r, k);
    }
  }
}
