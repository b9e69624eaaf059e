/** Parsing of a book's structure files (README, GLOSSARY, SUMMARY, LANGS):
    choosing the path to read, refusing a file without a parser, splicing
    `{% include <path> %}` markers into a summary, and dispatching the text
    to the parser method of the requested kind.

    Collaborators are parameters: `fs` is the book's content file system
    (`readAsString`), `native` the host file system used for includes
    (`readFileSync`), `cwd` the process working directory, `lookup` the
    structure-file lookup, and a file's parser is a record of four functions. */
module ParseStructureFile {
  import opened Wrappers

  /** The parser of a structure file: one method per kind. Each may fail. */
  datatype Parser<P> = Parser(
    parseReadme: string -> Result<P>,
    parseGlossary: string -> Result<P>,
    parseSummary: string -> Result<P>,
    parseLanguages: string -> Result<P>)

  /** A looked-up structure file: its own path and, if it is parsable, its parser. */
  datatype ParsableFile<P> = ParsableFile(path: string, parser: Option<Parser<P>>)

  // ---------------------------------------------------------------------
  // Path selection
  // ---------------------------------------------------------------------

  /** A JavaScript string is truthy exactly when it is not empty. */
  predicate IsGiven(summary: Option<string>) {
    summary.Some? && summary.value != ""
  }

  /** The path that is read: a given `summary` option wins over the file's
      own path, whatever the kind being parsed. */
  function ChosenPath<P>(file: ParsableFile<P>, summary: Option<string>): (p: string)
    ensures IsGiven(summary) ==> p == summary.value
    ensures !IsGiven(summary) ==> p == file.path
  {
    if IsGiven(summary) then summary.value else file.path
  }

  /** `nativePath.join(cwd, p)`, simplified to concatenation with a separator. */
  function Join(cwd: string, p: string): string {
    cwd + "/" + p
  }

  // ---------------------------------------------------------------------
  // Include markers
  // ---------------------------------------------------------------------

  /** The characters JavaScript's `\s` class matches. */
  predicate IsSpace(c: char) {
    c == ' ' || c == '\t' || c == '\n' || c == '\r' || c == '\U{B}' || c == '\U{C}'
    || c == '\U{A0}' || c == '\U{1680}' || ('\U{2000}' <= c <= '\U{200A}')
    || c == '\U{2028}' || c == '\U{2029}' || c == '\U{202F}' || c == '\U{205F}'
    || c == '\U{3000}' || c == '\U{FEFF}'
  }

  /** The opening delimiter `{%` starts at index `i` of `s`. */
  predicate OpensAt(s: string, i: nat) {
    i + 1 < |s| && s[i] == '{' && s[i + 1] == '%'
  }

  /** `s` contains the opening delimiter `{%` somewhere. */
  predicate HasOpen(s: string) {
    exists i: nat :: i < |s| && OpensAt(s, i)
  }

  /** A path as the marker grammar accepts it: non-empty, no whitespace. */
  predicate IsPath(p: string) {
    p != [] && forall k :: 0 <= k < |p| ==> !IsSpace(p[k])
  }

  /** The first index at or after `i` that is not whitespace (or the end). */
  function SkipSpaces(s: string, i: nat): (j: nat)
    requires i <= |s|
    ensures i <= j <= |s|
    ensures j < |s| ==> !IsSpace(s[j])
    decreases |s| - i
  {
    if i < |s| && IsSpace(s[i]) then SkipSpaces(s, i + 1) else i
  }

  /** The first index at or after `i` that is whitespace (or the end). */
  function SkipPath(s: string, i: nat): (j: nat)
    requires i <= |s|
    ensures i <= j <= |s|
    ensures j < |s| ==> IsSpace(s[j])
    decreases |s| - i
  {
    if i < |s| && !IsSpace(s[i]) then SkipPath(s, i + 1) else i
  }

  /** The word `w` is spelled out in `s` from index `i` on. */
  predicate WordAt(s: string, i: nat, w: string)
    requires i <= |s|
  {
    i + |w| <= |s| && s[i..i + |w|] == w
  }

  /** A run of whitespace (possibly empty). */
  predicate IsSpaces(w: string) {
    forall k :: 0 <= k < |w| ==> IsSpace(w[k])
  }

  /** Every character a whitespace scan passes over is whitespace. */
  lemma {:induction false} SkipSpacesRun(s: string, i: nat)
    requires i <= |s|
    ensures forall q :: i <= q < SkipSpaces(s, i) ==> IsSpace(s[q])
    decreases |s| - i
  {
    if i < |s| && IsSpace(s[i]) {
      SkipSpacesRun(s, i + 1);
    }
  }

  /** No character a path scan passes over is whitespace. */
  lemma {:induction false} SkipPathRun(s: string, i: nat)
    requires i <= |s|
    ensures forall q :: i <= q < SkipPath(s, i) ==> !IsSpace(s[q])
    decreases |s| - i
  {
    if i < |s| && !IsSpace(s[i]) {
      SkipPathRun(s, i + 1);
    }
  }

  /** A whitespace scan stops exactly at the end of a run of whitespace. */
  lemma {:induction false} SkipSpacesOver(s: string, i: nat, e: nat)
    requires i <= e <= |s| && (e < |s| ==> !IsSpace(s[e]))
    requires forall q :: i <= q < e ==> IsSpace(s[q])
    ensures SkipSpaces(s, i) == e
    decreases e - i
  {
    if i < e {
      SkipSpacesOver(s, i + 1, e);
    }
  }

  /** A path scan stops exactly at the first whitespace after a run of
      other characters. */
  lemma {:induction false} SkipPathOver(s: string, j: nat, e: nat)
    requires j <= e < |s| && IsSpace(s[e])
    requires forall q :: j <= q < e ==> !IsSpace(s[q])
    ensures SkipPath(s, j) == e
    decreases e - j
  {
    if j < e {
      SkipPathOver(s, j + 1, e);
    }
  }

  /** A marker recognised at the front of a text: the captured path and the
      number of characters the whole marker spans. */
  datatype Marker = Marker(path: string, length: nat)

  /** Recognises `{%` ws* `include` ws+ path ws+ `%}` at the front of `s`. */
  function MatchMarker(s: string): (r: Option<Marker>)
    ensures r.Some? ==> OpensAt(s, 0) && 2 <= r.value.length <= |s|
  {
    if !OpensAt(s, 0) then None
    else
      var i := SkipSpaces(s, 2);
      if !WordAt(s, i, "include") then None
      else
        var j := SkipSpaces(s, i + 7);
        var k := SkipPath(s, j);
        var m := SkipSpaces(s, k);
        if j == i + 7 || k == j || m == k || !WordAt(s, m, "%}") then None
        else Some(Marker(s[j..k], m + 2))
  }

  /** Replaces every include marker in `s` by the contents of its path, read
      relative to `cwd`, in one left-to-right pass; the first read that fails
      fails the whole substitution. Spliced-in text is not scanned again. */
  function ExpandIncludes(s: string, cwd: string, native: string -> Result<string>): Result<string>
    decreases |s|
  {
    if s == [] then Success([])
    else
      match MatchMarker(s)
      case Some(m) =>
        var contents :- native(Join(cwd, m.path));
        var rest :- ExpandIncludes(s[m.length..], cwd, native);
        Success(contents + rest)
      case None =>
        var rest :- ExpandIncludes(s[1..], cwd, native);
        Success([s[0]] + rest)
  }

  // ---------------------------------------------------------------------
  // A reference description of summaries with includes
  // ---------------------------------------------------------------------

  /** A summary text seen as plain text pieces and include markers. A marker
      keeps its three whitespace runs: before `include`, between `include`
      and the path, and between the path and `%}`. */
  datatype Segment =
    | Text(text: string)
    | Include(lead: string, gap: string, path: string, trail: string)

  /** The spelling of an include marker with the given whitespace runs. */
  function MarkerText(lead: string, gap: string, path: string, trail: string): string {
    "{%" + lead + "include" + gap + path + trail + "%}"
  }

  /** The text a segment spells. */
  function Spelling(seg: Segment): string {
    match seg
    case Text(t) => t
    case Include(lead, gap, path, trail) => MarkerText(lead, gap, path, trail)
  }

  /** A marker segment the grammar reads back as itself: whitespace runs
      (the last two non-empty) around a path. */
  predicate IsMarker(seg: Segment) {
    seg.Include? && IsSpaces(seg.lead) && seg.gap != [] && IsSpaces(seg.gap)
    && IsPath(seg.path) && seg.trail != [] && IsSpaces(seg.trail)
  }

  /** The text a list of segments spells. */
  function Print(segs: seq<Segment>): string {
    if segs == [] then [] else Spelling(segs[0]) + Print(segs[1..])
  }

  /** No marker is recognised at any of the first `n` positions of `s`. */
  predicate NoMarkerBefore(s: string, n: nat)
    requires n <= |s|
  {
    forall i: nat :: i < n ==> MatchMarker(s[i..]).None?
  }

  /** Every segment reads back as itself in the text the list spells: no
      marker starts inside a text segment, even together with what follows
      it, and every include is a well-formed marker. Any `{%` that does not
      start a marker (`{% raw %}`, a path with spaces) may sit in a text. */
  predicate ReadsBack(segs: seq<Segment>) {
    segs == []
    || ((match segs[0]
         case Text(t) => NoMarkerBefore(t + Print(segs[1..]), |t|)
         case Include(_, _, _, _) => IsMarker(segs[0]))
        && ReadsBack(segs[1..]))
  }

  /** `t` in front of a successful result. */
  function Prefixed(t: string, r: Result<string>): Result<string> {
    match r
    case Success(x) => Success(t + x)
    case Failure(e) => Failure(e)
  }

  /** The text of `h` in front of `r`, or the failure of `h`. */
  function Then(h: Result<string>, r: Result<string>): Result<string> {
    match h
    case Success(c) => Prefixed(c, r)
    case Failure(e) => Failure(e)
  }

  /** What a segment stands for: its own text, or the contents of the
      included file. */
  function SegmentText(seg: Segment, cwd: string, native: string -> Result<string>): Result<string> {
    match seg
    case Text(t) => Success(t)
    case Include(_, _, path, _) => native(Join(cwd, path))
  }

  /** The intended expansion: each include replaced by its file's contents,
      the reads done in order and the first failure returned. */
  function Resolve(segs: seq<Segment>, cwd: string, native: string -> Result<string>): Result<string> {
    if segs == [] then Success([])
    else Then(SegmentText(segs[0], cwd, native), Resolve(segs[1..], cwd, native))
  }

  /** The front `u` of a known prefix `u + v` of `s`, and the `v` after it. */
  lemma SliceOfPrefix(s: string, u: string, v: string)
    requires |u| + |v| <= |s| && s[..|u| + |v|] == u + v
    ensures s[..|u|] == u && s[|u|..|u| + |v|] == v
  {
    assert s[..|u|] == s[..|u| + |v|][..|u|];
    assert s[|u|..|u| + |v|] == s[..|u| + |v|][|u|..];
  }

  /** Two adjacent slices of `s` join into one. */
  lemma Glue(s: string, a: nat, b: nat, c: nat)
    requires a <= b <= c <= |s|
    ensures s[a..b] + s[b..c] == s[a..c]
  {
  }

  /** Where the pieces of a marker sit in a text that starts with it: the
      marker's runs and words lie at `2`, `a`, `b`, `j`, `k` and `m`. */
  lemma MarkerLayout(lead: string, gap: string, path: string, trail: string, s: string)
      returns (a: nat, b: nat, j: nat, k: nat, m: nat)
    requires |MarkerText(lead, gap, path, trail)| <= |s|
    requires s[..|MarkerText(lead, gap, path, trail)|] == MarkerText(lead, gap, path, trail)
    ensures a == 2 + |lead| && b == a + 7 && j == b + |gap| && k == j + |path| && m == k + |trail|
    ensures |MarkerText(lead, gap, path, trail)| == m + 2 <= |s|
    ensures s[..2] == "{%" && s[2..a] == lead && s[a..b] == "include"
    ensures s[b..j] == gap && s[j..k] == path && s[k..m] == trail && s[m..m + 2] == "%}"
  {
    a, b := 2 + |lead|, 9 + |lead|;
    j := b + |gap|;
    k := j + |path|;
    m := k + |trail|;
    var u1 := "{%" + lead;
    var u2 := u1 + "include";
    var u3 := u2 + gap;
    var u4 := u3 + path;
    var u5 := u4 + trail;
    assert MarkerText(lead, gap, path, trail) == u5 + "%}";
    assert s[..m + 2] == u5 + "%}";
    SliceOfPrefix(s, u5, "%}");
    SliceOfPrefix(s, u4, trail);
    SliceOfPrefix(s, u3, path);
    SliceOfPrefix(s, u2, gap);
    SliceOfPrefix(s, u1, "include");
    SliceOfPrefix(s, "{%", lead);
  }

  /** A whitespace run laid out at `s[i..e]` and ended by a non-space. */
  lemma SkipSpacesPiece(s: string, i: nat, e: nat, w: string)
    requires i <= e < |s| && s[i..e] == w && IsSpaces(w) && !IsSpace(s[e])
    ensures SkipSpaces(s, i) == e
  {
    forall q | i <= q < e ensures IsSpace(s[q]) {
      assert s[q] == w[q - i];
    }
    SkipSpacesOver(s, i, e);
  }

  /** A path laid out at `s[j..e]` and ended by whitespace. */
  lemma SkipPathPiece(s: string, j: nat, e: nat, p: string)
    requires j <= e < |s| && s[j..e] == p && IsPath(p) && IsSpace(s[e])
    ensures SkipPath(s, j) == e
  {
    forall q | j <= q < e ensures !IsSpace(s[q]) {
      assert s[q] == p[q - j];
    }
    SkipPathOver(s, j, e);
  }

  /** The positions the marker scan reaches in a text laid out as a marker. */
  lemma MarkerScan(s: string, seg: Segment, a: nat, b: nat, j: nat, k: nat, m: nat)
    requires IsMarker(seg)
    requires a == 2 + |seg.lead| && b == a + 7 && j == b + |seg.gap|
    requires k == j + |seg.path| && m == k + |seg.trail| && m + 2 <= |s|
    requires s[2..a] == seg.lead && s[a..b] == "include" && s[b..j] == seg.gap
    requires s[j..k] == seg.path && s[k..m] == seg.trail && s[m..m + 2] == "%}"
    ensures SkipSpaces(s, 2) == a && WordAt(s, a, "include")
    ensures SkipSpaces(s, b) == j && SkipPath(s, j) == k
    ensures SkipSpaces(s, k) == m && WordAt(s, m, "%}")
  {
    assert s[a] == s[a..b][0];
    SkipSpacesPiece(s, 2, a, seg.lead);
    assert s[j] == seg.path[0] by { assert s[j] == s[j..k][0]; }
    SkipSpacesPiece(s, b, j, seg.gap);
    assert s[k] == seg.trail[0] by { assert s[k] == s[k..m][0]; }
    SkipPathPiece(s, j, k, seg.path);
    assert s[m] == s[m..m + 2][0];
    SkipSpacesPiece(s, k, m, seg.trail);
  }

  /** The scan over a text that starts with a well-formed marker passes the
      checks of `MatchMarker` at the positions of the marker's pieces. */
  lemma SpelledScan(seg: Segment, s: string) returns (i: nat, j: nat, k: nat, m: nat)
    requires IsMarker(seg)
    requires |Spelling(seg)| <= |s| && s[..|Spelling(seg)|] == Spelling(seg)
    ensures OpensAt(s, 0) && i + 7 < j < k < m && m + 2 == |Spelling(seg)|
    ensures SkipSpaces(s, 2) == i && WordAt(s, i, "include") && SkipSpaces(s, i + 7) == j
    ensures SkipPath(s, j) == k && SkipSpaces(s, k) == m && WordAt(s, m, "%}")
    ensures s[j..k] == seg.path
  {
    var b;
    i, b, j, k, m := MarkerLayout(seg.lead, seg.gap, seg.path, seg.trail, s);
    MarkerScan(s, seg, i, b, j, k, m);
    assert s[0] == s[..2][0] && s[1] == s[..2][1];
  }

  /** A text that starts with a well-formed marker is recognised as it. */
  lemma MatchSpelledAt(seg: Segment, s: string)
    requires IsMarker(seg)
    requires |Spelling(seg)| <= |s| && s[..|Spelling(seg)|] == Spelling(seg)
    ensures MatchMarker(s) == Some(Marker(seg.path, |Spelling(seg)|))
  {
    var i, j, k, m := SpelledScan(seg, s);
    MatchAtPositions(s, i, j, k, m);
  }

  /** Every well-formed marker is recognised, with exactly its path and its
      span, whatever follows it. */
  lemma MatchMarkerSpelled(seg: Segment, rest: string)
    requires IsMarker(seg)
    ensures MatchMarker(Spelling(seg) + rest) == Some(Marker(seg.path, |Spelling(seg)|))
  {
    var s := Spelling(seg) + rest;
    assert s[..|Spelling(seg)|] == Spelling(seg);
    MatchSpelledAt(seg, s);
  }

  /** The scan checks passing at `i`, `j`, `k` and `m` recognise the marker
      that spans up to `m + 2` with the path `s[j..k]`. */
  lemma MatchAtPositions(s: string, i: nat, j: nat, k: nat, m: nat)
    requires OpensAt(s, 0) && i + 7 < j < k < m && m + 2 <= |s|
    requires SkipSpaces(s, 2) == i && WordAt(s, i, "include") && SkipSpaces(s, i + 7) == j
    requires SkipPath(s, j) == k && SkipSpaces(s, k) == m && WordAt(s, m, "%}")
    ensures MatchMarker(s) == Some(Marker(s[j..k], m + 2))
  {
  }

  /** A stretch of whitespace, seen as a slice. */
  lemma SpacesSlice(s: string, a: nat, b: nat)
    requires a <= b <= |s| && forall q :: a <= q < b ==> IsSpace(s[q])
    ensures IsSpaces(s[a..b])
  {
    forall q | 0 <= q < b - a ensures IsSpace(s[a..b][q]) {
      assert s[a..b][q] == s[a + q];
    }
  }

  /** A non-empty stretch without whitespace, seen as a slice. */
  lemma PathSlice(s: string, a: nat, b: nat)
    requires a < b <= |s| && forall q :: a <= q < b ==> !IsSpace(s[q])
    ensures IsPath(s[a..b])
  {
    forall q | 0 <= q < b - a ensures !IsSpace(s[a..b][q]) {
      assert s[a..b][q] == s[a + q];
    }
  }

  /** The front of `s` cut at the scan positions is a marker's spelling. */
  lemma SpelledByScan(s: string, i: nat, j: nat, k: nat, m: nat)
    requires 2 <= i && i + 7 <= j <= k <= m && m + 2 <= |s|
    requires OpensAt(s, 0) && WordAt(s, i, "include") && WordAt(s, m, "%}")
    ensures MarkerText(s[2..i], s[i + 7..j], s[j..k], s[k..m]) == s[..m + 2]
  {
    assert s[..2] == "{%";
    Glue(s, 0, 2, i);
    Glue(s, 0, i, i + 7);
    Glue(s, 0, i + 7, j);
    Glue(s, 0, j, k);
    Glue(s, 0, k, m);
    Glue(s, 0, m, m + 2);
  }

  /** The scan positions behind a recognised marker. */
  lemma ScanPositions(s: string) returns (i: nat, j: nat, k: nat, m: nat)
    requires MatchMarker(s).Some?
    ensures i == SkipSpaces(s, 2) && j == SkipSpaces(s, i + 7) && k == SkipPath(s, j) && m == SkipSpaces(s, k)
    ensures 2 <= i && i + 7 < j < k < m && m + 2 <= |s|
    ensures OpensAt(s, 0) && WordAt(s, i, "include") && WordAt(s, m, "%}")
    ensures MatchMarker(s) == Some(Marker(s[j..k], m + 2))
  {
    i := SkipSpaces(s, 2);
    j := SkipSpaces(s, i + 7);
    k := SkipPath(s, j);
    m := SkipSpaces(s, k);
  }

  /** Conversely, whatever the scan recognises is the spelling of a
      well-formed marker with the captured path. */
  lemma MarkerParts(s: string) returns (seg: Segment)
    requires MatchMarker(s).Some?
    ensures IsMarker(seg)
    ensures seg.path == MatchMarker(s).value.path
    ensures Spelling(seg) == s[..MatchMarker(s).value.length]
  {
    var i, j, k, m := ScanPositions(s);
    SkipSpacesRun(s, 2);
    SpacesSlice(s, 2, i);
    SkipSpacesRun(s, i + 7);
    SpacesSlice(s, i + 7, j);
    SkipPathRun(s, j);
    PathSlice(s, j, k);
    SkipSpacesRun(s, k);
    SpacesSlice(s, k, m);
    SpelledByScan(s, i, j, k, m);
    seg := Include(s[2..i], s[i + 7..j], s[j..k], s[k..m]);
  }

  /** One step of the scan over a character that does not start a marker. */
  lemma ExpandPlainChar(s: string, cwd: string, native: string -> Result<string>)
    requires s != [] && MatchMarker(s).None?
    ensures ExpandIncludes(s, cwd, native) == Prefixed([s[0]], ExpandIncludes(s[1..], cwd, native))
  {
  }

  lemma PrefixedTwice(a: string, b: string, r: Result<string>)
    ensures Prefixed(a, Prefixed(b, r)) == Prefixed(a + b, r)
  {
    match r
    case Success(x) => assert a + (b + x) == (a + b) + x;
    case Failure(_) =>
  }

  /** One character that does not start a marker, in front of a prefix that
      already passes through. */
  lemma ExpandLiteralStep(s: string, n: nat, cwd: string, native: string -> Result<string>)
    requires 0 < n <= |s| && MatchMarker(s).None?
    requires ExpandIncludes(s[1..], cwd, native) == Prefixed(s[1..n], ExpandIncludes(s[n..], cwd, native))
    ensures ExpandIncludes(s, cwd, native) == Prefixed(s[..n], ExpandIncludes(s[n..], cwd, native))
  {
    ExpandPlainChar(s, cwd, native);
    PrefixedTwice([s[0]], s[1..n], ExpandIncludes(s[n..], cwd, native));
    assert [s[0]] + s[1..n] == s[..n];
  }

  /** Text in which no marker starts before index `n` passes through the
      expansion untouched. */
  lemma {:induction false} ExpandLiteralPrefix(s: string, n: nat, cwd: string, native: string -> Result<string>)
    requires n <= |s| && NoMarkerBefore(s, n)
    ensures ExpandIncludes(s, cwd, native) == Prefixed(s[..n], ExpandIncludes(s[n..], cwd, native))
    decreases n
  {
    if n == 0 {
      assert s[..0] == [] && s[0..] == s;
      match ExpandIncludes(s, cwd, native)
      case Success(x) => assert [] + x == x;
      case Failure(_) =>
    } else {
      forall i: nat | i < n - 1 ensures MatchMarker(s[1..][i..]).None? {
        assert s[1..][i..] == s[i + 1..];
      }
      assert NoMarkerBefore(s[1..], n - 1);
      ExpandLiteralPrefix(s[1..], n - 1, cwd, native);
      assert s[1..][n - 1..] == s[n..] && s[1..][..n - 1] == s[1..n];
      assert s[0..] == s;
      ExpandLiteralStep(s, n, cwd, native);
    }
  }

  /** A recognised marker: its file's contents, then the expansion of what
      follows the marker. */
  lemma ExpandMarkerStep(s: string, m: Marker, cwd: string, native: string -> Result<string>)
    requires MatchMarker(s) == Some(m)
    ensures ExpandIncludes(s, cwd, native)
         == Then(native(Join(cwd, m.path)), ExpandIncludes(s[m.length..], cwd, native))
  {
  }

  /** Text in which no marker starts, in front of `rest`, is kept as it is. */
  lemma ExpandTextStep(t: string, rest: string, cwd: string, native: string -> Result<string>)
    requires NoMarkerBefore(t + rest, |t|)
    ensures ExpandIncludes(t + rest, cwd, native) == Prefixed(t, ExpandIncludes(rest, cwd, native))
  {
    var s := t + rest;
    ExpandLiteralPrefix(s, |t|, cwd, native);
    assert s[..|t|] == t && s[|t|..] == rest;
  }

  /** Round trip: expanding the text a well-formed segment list spells gives
      exactly the reference resolution of that list. In particular the text
      spliced in for an include is never scanned for markers again. */
  lemma {:induction false} ExpandPrinted(segs: seq<Segment>, cwd: string, native: string -> Result<string>)
    requires ReadsBack(segs)
    ensures ExpandIncludes(Print(segs), cwd, native) == Resolve(segs, cwd, native)
  {
    if segs != [] {
      ExpandPrinted(segs[1..], cwd, native);
      match segs[0]
      case Include(_, _, p, _) =>
        var s := Print(segs);
        var n := |Spelling(segs[0])|;
        MatchMarkerSpelled(segs[0], Print(segs[1..]));
        ExpandMarkerStep(s, Marker(p, n), cwd, native);
        assert s[n..] == Print(segs[1..]);
      case Text(t) => ExpandTextStep(t, Print(segs[1..]), cwd, native);
    }
  }

  /** A recognised marker in front of a segment list for the rest of `s`. */
  lemma MarkerInFront(s: string, n: nat, seg: Segment, rest: seq<Segment>)
    requires n <= |s| && IsMarker(seg) && Spelling(seg) == s[..n]
    requires ReadsBack(rest) && Print(rest) == s[n..]
    ensures ReadsBack([seg] + rest) && Print([seg] + rest) == s
  {
    assert ([seg] + rest)[1..] == rest;
    assert s[..n] + s[n..] == s;
  }

  /** A character that starts no marker, as text in front of a segment list
      for the rest of `s`. */
  lemma CharInFront(s: string, rest: seq<Segment>)
    requires s != [] && MatchMarker(s).None?
    requires ReadsBack(rest) && Print(rest) == s[1..]
    ensures ReadsBack([Text([s[0]])] + rest) && Print([Text([s[0]])] + rest) == s
  {
    assert ([Text([s[0]])] + rest)[1..] == rest;
    assert [s[0]] + s[1..] == s;
    assert ([s[0]] + Print(rest))[0..] == s;
  }

  /** Every text is spelled by some list of segments that reads back as
      itself: the markers the scan recognises become includes and every other
      character stays text. So the round trip covers every text. */
  lemma {:induction false} EveryTextReadsBack(s: string) returns (segs: seq<Segment>)
    ensures ReadsBack(segs) && Print(segs) == s
    decreases |s|
  {
    if s == [] {
      segs := [];
    } else if MatchMarker(s).Some? {
      var n := MatchMarker(s).value.length;
      var seg := MarkerParts(s);
      var rest := EveryTextReadsBack(s[n..]);
      MarkerInFront(s, n, seg, rest);
      segs := [seg] + rest;
    } else {
      var rest := EveryTextReadsBack(s[1..]);
      CharInFront(s, rest);
      segs := [Text([s[0]])] + rest;
    }
  }

  /** A text with no `{%` in it comes out of the substitution unchanged. */
  lemma ExpandWithoutMarkers(s: string, cwd: string, native: string -> Result<string>)
    requires !HasOpen(s)
    ensures ExpandIncludes(s, cwd, native) == Success(s)
  {
    forall i: nat | i < |s| ensures MatchMarker(s[i..]).None? {
      assert !OpensAt(s, i);
      if i + 1 < |s| {
        assert s[i..][0] == s[i] && s[i..][1] == s[i + 1];
      }
    }
    ExpandLiteralPrefix(s, |s|, cwd, native);
    assert s[..|s|] == s && s[|s|..] == [] && s + [] == s;
  }

  /** The text and the reference resolution of a single include between two texts. */
  lemma OneInclude(segs: seq<Segment>, before: string, inc: Segment, after: string,
                   cwd: string, native: string -> Result<string>)
    requires segs == [Text(before), inc, Text(after)] && inc.Include?
    ensures Print(segs) == before + Spelling(inc) + after
    ensures Resolve(segs, cwd, native) == match native(Join(cwd, inc.path))
                                          case Failure(e) => Failure(e)
                                          case Success(c) => Success(before + c + after)
  {
    assert segs[1..] == [inc, Text(after)];
    assert segs[1..][1..] == [Text(after)];
    assert segs[1..][1..][1..] == [];
    assert Print(segs[1..][1..]) == after;
    assert Resolve(segs[1..][1..], cwd, native) == Success(after) by {
      assert after + [] == after;
    }
    match native(Join(cwd, inc.path))
    case Failure(_) =>
    case Success(c) => assert before + (c + after) == before + c + after;
  }

  /** A marker spliced in by an include stays in the text as it is: the
      substitution is a single pass. */
  lemma IncludeIsNotRescanned(text: string, before: string, inc: Segment, inner: Segment, after: string,
                              cwd: string, native: string -> Result<string>)
    requires ReadsBack([Text(before), inc, Text(after)]) && inc.Include? && IsMarker(inner)
    requires text == before + Spelling(inc) + after
    requires native(Join(cwd, inc.path)) == Success(Spelling(inner))
    ensures ExpandIncludes(text, cwd, native) == Success(before + Spelling(inner) + after)
  {
    var segs := [Text(before), inc, Text(after)];
    OneInclude(segs, before, inc, after, cwd, native);
    ExpandPrinted(segs, cwd, native);
  }

  // ---------------------------------------------------------------------
  // Parsing
  // ---------------------------------------------------------------------

  /** The kinds the parser dispatch knows. */
  predicate IsStructureKind(kind: string) {
    kind == "readme" || kind == "glossary" || kind == "summary" || kind == "langs"
  }

  /** The parser method a kind other than `summary` sends its text to, unchanged. */
  function VerbatimMethod<P>(parser: Parser<P>, kind: string): Option<string -> Result<P>> {
    if kind == "readme" then Some(parser.parseReadme)
    else if kind == "glossary" then Some(parser.parseGlossary)
    else if kind == "langs" then Some(parser.parseLanguages)
    else None
  }

  /** Dispatch of the text read to the parser method of `kind`. */
  function ParseContent<P>(parser: Parser<P>, kind: string, content: string,
                           cwd: string, native: string -> Result<string>): (r: Result<P>)
    ensures !IsStructureKind(kind) ==> r == Failure(InvalidParseType(kind))
  {
    if kind == "readme" then parser.parseReadme(content)
    else if kind == "glossary" then parser.parseGlossary(content)
    else if kind == "summary" then
      var expanded :- ExpandIncludes(content, cwd, native);
      parser.parseSummary(expanded)
    else if kind == "langs" then parser.parseLanguages(content)
    else Failure(InvalidParseType(kind))
  }

  /** A parser outcome paired with the file handle it came from. */
  function Paired<P>(file: ParsableFile<P>, r: Result<P>): Result<(ParsableFile<P>, P)> {
    match r
    case Success(v) => Success((file, v))
    case Failure(e) => Failure(e)
  }

  /** `parseFile`: the pair [file, parsed value] of a file that exists. */
  function ParseFile<P>(fs: string -> Result<string>, native: string -> Result<string>, cwd: string,
                        file: ParsableFile<P>, kind: string, summary: Option<string>)
    : (r: Result<(ParsableFile<P>, P)>)
    ensures file.parser.None? ==> r == Failure(FileNotParsable(ChosenPath(file, summary)))
    ensures file.parser.Some? && fs(ChosenPath(file, summary)).Failure? ==>
              r == Failure(fs(ChosenPath(file, summary)).error)
    ensures r.Success? ==>
              r.value.0 == file && IsStructureKind(kind) && fs(ChosenPath(file, summary)).Success?
  {
    var filepath := ChosenPath(file, summary);
    match file.parser
    case None => Failure(FileNotParsable(filepath))
    case Some(parser) =>
      var content :- fs(filepath);
      Paired(file, ParseContent(parser, kind, content, cwd, native))
  }

  /** `parseStructureFile`: `None` stands for the pair [undefined, undefined]
      returned when the book has no file of this kind. */
  function ParseStructureFile<P>(lookup: string -> Result<Option<ParsableFile<P>>>,
                                 fs: string -> Result<string>, native: string -> Result<string>,
                                 cwd: string, kind: string, summary: Option<string>)
    : (r: Result<Option<(ParsableFile<P>, P)>>)
    ensures lookup(kind).Failure? ==> r == Failure(lookup(kind).error)
    ensures lookup(kind) == Success(None) ==> r == Success(None)
    ensures lookup(kind).Success? && lookup(kind).value.Some? ==>
              r == match ParseFile(fs, native, cwd, lookup(kind).value.value, kind, summary)
                   case Success(pair) => Success(Some(pair))
                   case Failure(e) => Failure(e)
    ensures r.Success? && r.value.Some? ==> lookup(kind) == Success(Some(r.value.value.0))
  {
    var found :- lookup(kind);
    match found
    case None => Success(None)
    case Some(file) =>
      var pair :- ParseFile(fs, native, cwd, file, kind, summary);
      Success(Some(pair))
  }

  // ---------------------------------------------------------------------
  // Properties of parseFile
  // ---------------------------------------------------------------------

  /** The content file system is consulted at the chosen path only: two
      readers that agree there give the same outcome. */
  lemma ReadsOnlyChosenPath<P>(fs1: string -> Result<string>, fs2: string -> Result<string>,
                               native: string -> Result<string>, cwd: string,
                               file: ParsableFile<P>, kind: string, summary: Option<string>)
    requires fs1(ChosenPath(file, summary)) == fs2(ChosenPath(file, summary))
    ensures ParseFile(fs1, native, cwd, file, kind, summary) == ParseFile(fs2, native, cwd, file, kind, summary)
  {
  }

  /** A pair outcome with its file handle replaced by `other`. */
  function Rehandled<P>(r: Result<(ParsableFile<P>, P)>, other: ParsableFile<P>): Result<(ParsableFile<P>, P)> {
    match r
    case Success(pair) => Success((other, pair.1))
    case Failure(e) => Failure(e)
  }

  /** A given `summary` option overrides the file's own path for every kind:
      two handles that differ only in their path give the same outcome, up to
      the handle returned in the pair. */
  lemma SummaryOverridesPath<P>(fs: string -> Result<string>, native: string -> Result<string>, cwd: string,
                                file: ParsableFile<P>, otherPath: string, kind: string, summary: Option<string>)
    requires IsGiven(summary)
    ensures ParseFile(fs, native, cwd, file.(path := otherPath), kind, summary)
         == Rehandled(ParseFile(fs, native, cwd, file, kind, summary), file.(path := otherPath))
  {
  }

  /** A file without a parser fails with its chosen filename and reads nothing. */
  lemma NotParsableReadsNothing<P>(fs1: string -> Result<string>, fs2: string -> Result<string>,
                                   native1: string -> Result<string>, native2: string -> Result<string>,
                                   cwd: string, file: ParsableFile<P>, kind: string, summary: Option<string>)
    requires file.parser.None?
    ensures ParseFile(fs1, native1, cwd, file, kind, summary) == ParseFile(fs2, native2, cwd, file, kind, summary)
    ensures ParseFile(fs1, native1, cwd, file, kind, summary).error.filename == ChosenPath(file, summary)
  {
  }

  /** readme, glossary and langs: the parser gets the text exactly as read,
      and no include is ever read. */
  lemma VerbatimKinds<P>(fs: string -> Result<string>, native1: string -> Result<string>,
                         native2: string -> Result<string>, cwd: string,
                         file: ParsableFile<P>, kind: string, summary: Option<string>)
    requires file.parser.Some? && VerbatimMethod(file.parser.value, kind).Some?
    requires fs(ChosenPath(file, summary)).Success?
    ensures ParseFile(fs, native1, cwd, file, kind, summary)
         == Paired(file, VerbatimMethod(file.parser.value, kind).value(fs(ChosenPath(file, summary)).value))
    ensures ParseFile(fs, native1, cwd, file, kind, summary) == ParseFile(fs, native2, cwd, file, kind, summary)
  {
  }

  /** summary: a text with no `{%` reaches parseSummary unchanged. */
  lemma SummaryWithoutMarkers<P>(fs: string -> Result<string>, native: string -> Result<string>, cwd: string,
                                 file: ParsableFile<P>, summary: Option<string>)
    requires file.parser.Some?
    requires fs(ChosenPath(file, summary)).Success? && !HasOpen(fs(ChosenPath(file, summary)).value)
    ensures ParseFile(fs, native, cwd, file, "summary", summary)
         == Paired(file, file.parser.value.parseSummary(fs(ChosenPath(file, summary)).value))
  {
    ExpandWithoutMarkers(fs(ChosenPath(file, summary)).value, cwd, native);
  }

  /** summary: parseSummary gets the reference resolution of the markers, and
      an unreadable include fails the whole parse with the read's error. */
  lemma SummaryIncludesResolved<P>(fs: string -> Result<string>, native: string -> Result<string>, cwd: string,
                                   file: ParsableFile<P>, summary: Option<string>, segs: seq<Segment>)
    requires file.parser.Some?
    requires ReadsBack(segs)
    requires fs(ChosenPath(file, summary)) == Success(Print(segs))
    ensures ParseFile(fs, native, cwd, file, "summary", summary)
         == match Resolve(segs, cwd, native)
            case Failure(e) => Failure(e)
            case Success(text) => Paired(file, file.parser.value.parseSummary(text))
  {
    ExpandPrinted(segs, cwd, native);
  }

  /** Any other kind: the file is still read first, so a failing read wins;
      otherwise the parse is rejected as an invalid type. */
  lemma InvalidKindRejected<P>(fs: string -> Result<string>, native: string -> Result<string>, cwd: string,
                               file: ParsableFile<P>, kind: string, summary: Option<string>)
    requires file.parser.Some? && !IsStructureKind(kind)
    ensures ParseFile(fs, native, cwd, file, kind, summary)
         == match fs(ChosenPath(file, summary))
            case Failure(e) => Failure(e)
            case Success(_) => Failure(InvalidParseType(kind))
  {
  }
}
