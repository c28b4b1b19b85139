/** What scanning a rendered diff gives. A diff is a list of files; its lines end at newlines, and the scanner sees
    the pieces `splitlines` makes of them. */
module DiffLaws {
  import opened Wrappers
  import opened PyText
  import opened DiffScan

  // ---------------------------------------------------------------- structured diffs

  datatype BodyLine = Context(text: string) | Added(text: string) | Removed(text: string) | Note(text: string)
  datatype Hunk = Hunk(range: string, body: seq<BodyLine>)

  /** One file of a diff; a file without names (a mode change, a binary file) has no hunks. */
  datatype FileDiff = FileDiff(git: string, extended: seq<string>, names: Option<(string, string)>, hunks: seq<Hunk>)

  function Sign(b: BodyLine): char
  {
    match b
    case Context(_) => ' '
    case Added(_) => '+'
    case Removed(_) => '-'
    case Note(_) => '\\'
  }

  function RenderLine(b: BodyLine): string
  {
    [Sign(b)] + b.text
  }

  function RenderBody(body: seq<BodyLine>): seq<string>
  {
    if body == [] then [] else [RenderLine(body[0])] + RenderBody(body[1..])
  }

  function RenderHunks(hunks: seq<Hunk>): seq<string>
  {
    if hunks == [] then [] else ["@@ " + hunks[0].range] + RenderBody(hunks[0].body) + RenderHunks(hunks[1..])
  }

  function RenderNames(names: Option<(string, string)>): seq<string>
  {
    if names.Some? then ["--- " + names.value.0, "+++ " + names.value.1] else []
  }

  function RenderPlain(f: FileDiff): seq<string>
  {
    f.extended + RenderNames(f.names) + RenderHunks(f.hunks)
  }

  function RenderFile(f: FileDiff): seq<string>
  {
    ["diff --git " + f.git] + RenderPlain(f)
  }

  function RenderFiles(files: seq<FileDiff>): seq<string>
  {
    if files == [] then [] else RenderFile(files[0]) + RenderFiles(files[1..])
  }

  /** The lines, each ended by a newline. */
  function Text(lines: seq<string>): string
  {
    if lines == [] then [] else lines[0] + ['\n'] + Text(lines[1..])
  }

  /** A line of the extended header ("index ...", "new file mode ...") is none of the lines the scan looks at. */
  predicate Inert(line: string)
  {
    !IsGit(line) && !StartsWith(line, "@@ ") && !StartsWith(line, "+") && !StartsWith(line, "-")
  }

  predicate IsGit(line: string)
  {
    StartsWith(line, "diff --git ")
  }

  // ---------------------------------------------------------------- the lines the scan sees

  /** The lines `splitlines` makes of one line of the diff: more than one if another line break is inside. */
  function Pieces(line: string): (r: seq<string>)
    ensures r != []
  {
    SplitAfter(line, [], []);
    SplitLines(line + ['\n'])
  }

  function AllPieces(lines: seq<string>): seq<string>
  {
    Flatten(Pieces, lines)
  }

  function Flatten(f: string -> seq<string>, lines: seq<string>): seq<string>
  {
    if lines == [] then [] else f(lines[0]) + Flatten(f, lines[1..])
  }

  lemma {:induction false} FlattenConcat(f: string -> seq<string>, a: seq<string>, b: seq<string>)
    ensures Flatten(f, a + b) == Flatten(f, a) + Flatten(f, b)
    decreases |a|
  {
    if a == [] {
      assert a + b == b;
    } else {
      FlattenConcat(f, a[1..], b);
      assert (a + b)[1..] == a[1..] + b;
    }
  }

  predicate OneLine(line: string)
  {
    '\n' !in line
  }

  predicate NoBreaks(s: string)
  {
    forall i | 0 <= i < |s| :: !IsBreak(s[i])
  }

  /** A line without the carriage return of a "\r\n" ending. */
  function Chomp(line: string): string
  {
    if line != [] && line[|line| - 1] == '\r' then line[..|line| - 1] else line
  }

  /** No line break inside, except that the line may end in "\r\n". */
  predicate Clean(line: string)
  {
    NoBreaks(Chomp(line))
  }

  lemma {:induction false} SplitRest(line: string, cur: string, rest: string)
    requires OneLine(line)
    ensures SplitFrom(line + ['\n'] + rest, cur) == SplitFrom(line + ['\n'], cur) + SplitFrom(rest, [])
    decreases |line|
  {
    var s, t := line + ['\n'] + rest, line + ['\n'];
    if line == [] || line == ['\r'] {
      assert s[|line| + 1..] == rest && t[|line| + 1..] == [];
    } else {
      assert s[1..] == line[1..] + ['\n'] + rest && t[1..] == line[1..] + ['\n'];
      assert s[0] == t[0] == line[0] && s[1] == t[1] == (line + ['\n'])[1];
      assert s[0] == '\r' ==> s[1] != '\n';
      SplitRest(line[1..], if IsBreak(line[0]) then [] else cur + [line[0]], rest);
    }
  }

  /** Splitting a text of lines gives the pieces of each line in turn. */
  lemma {:induction false} SplitsToPieces(lines: seq<string>)
    requires forall i | 0 <= i < |lines| :: OneLine(lines[i])
    ensures SplitLines(Text(lines)) == AllPieces(lines)
  {
    if lines != [] {
      SplitRest(lines[0], [], Text(lines[1..]));
      SplitsToPieces(lines[1..]);
    }
  }

  lemma {:induction false} SplitUnbroken(prefix: string, cur: string, rest: string)
    requires NoBreaks(prefix)
    ensures SplitFrom(prefix + rest, cur) == SplitFrom(rest, cur + prefix)
    decreases |prefix|
  {
    if prefix == [] {
      assert prefix + rest == rest && cur + prefix == cur;
    } else {
      assert !IsBreak(prefix[0]);
      assert (prefix + rest)[1..] == prefix[1..] + rest;
      SplitUnbroken(prefix[1..], cur + [prefix[0]], rest);
      assert cur + [prefix[0]] + prefix[1..] == cur + prefix;
    }
  }

  lemma {:induction false} SplitAfter(text: string, a: string, b: string)
    ensures var s := text + ['\n'];
      && SplitFrom(s, b) != [] && SplitFrom(s, a + b) == [a + SplitFrom(s, b)[0]] + SplitFrom(s, b)[1..]
    decreases |text|
  {
    var s := text + ['\n'];
    if IsBreak(s[0]) {
      var rest := SplitFrom(if |s| >= 2 && s[0] == '\r' && s[1] == '\n' then s[2..] else s[1..], []);
      assert SplitFrom(s, b) == [b] + rest && SplitFrom(s, a + b) == [a + b] + rest;
      assert ([b] + rest)[1..] == rest;
    } else {
      assert s[1..] == text[1..] + ['\n'];
      SplitAfter(text[1..], a, b + [text[0]]);
      assert a + (b + [text[0]]) == a + b + [text[0]];
    }
  }

  /** What stands before the first break stays in the first piece. */
  lemma PiecesAfter(prefix: string, text: string)
    requires NoBreaks(prefix)
    ensures Pieces(prefix + text) == [prefix + Pieces(text)[0]] + Pieces(text)[1..]
  {
    var s := text + ['\n'];
    assert prefix + text + ['\n'] == prefix + s;
    SplitUnbroken(prefix, [], s);
    assert [] + prefix == prefix + [];
    SplitAfter(text, prefix, []);
  }

  lemma PiecesOfClean(line: string)
    requires Clean(line)
    ensures Pieces(line) == [Chomp(line)] && OneLine(line)
  {
    var core := Chomp(line);
    var end := (if core == line then [] else ['\r']) + ['\n'];
    assert line + ['\n'] == core + end;
    SplitUnbroken(core, [], end);
    assert [] + core == core;
    assert end[|end|..] == [];
    assert SplitFrom(end, core) == [core];
    assert forall c | c in core :: !IsBreak(c);
  }

  // ---------------------------------------------------------------- what lines count

  const NOTHING: Summary := Summary(0, 0, [])

  function Add(a: Summary, b: Summary): Summary
  {
    Summary(a.added + b.added, a.deleted + b.deleted, a.fingerprints + b.fingerprints)
  }

  /** What one line counts for inside a hunk. */
  function LineSummary(path: Option<string>, line: string, lib: Library): Summary
  {
    if line == [] then NOTHING
    else if line[0] == '+' then Summary(1, 0, FingerprintOf(path, line[1..], lib))
    else if line[0] == '-' then Summary(0, 1, [])
    else NOTHING
  }

  function Total<T>(count: T -> Summary, lines: seq<T>): Summary
  {
    if lines == [] then NOTHING else Add(count(lines[0]), Total(count, lines[1..]))
  }

  function Counter(path: Option<string>, lib: Library): string -> Summary
  {
    line => LineSummary(path, line, lib)
  }

  lemma AddAssociates(a: Summary, b: Summary, c: Summary)
    ensures Add(Add(a, b), c) == Add(a, Add(b, c))
  {
  }

  lemma AddNothing(a: Summary)
    ensures Add(NOTHING, a) == a && Add(a, NOTHING) == a
  {
  }

  lemma {:induction false} TotalConcat<T>(count: T -> Summary, a: seq<T>, b: seq<T>)
    ensures Total(count, a + b) == Add(Total(count, a), Total(count, b))
    decreases |a|
  {
    if a == [] {
      assert a + b == b;
      AddNothing(Total(count, b));
    } else {
      TotalConcat(count, a[1..], b);
      assert (a + b)[1..] == a[1..] + b;
      AddAssociates(count(a[0]), Total(count, a[1..]), Total(count, b));
    }
  }

  lemma TotalOfOne<T>(count: T -> Summary, line: T)
    ensures Total(count, [line]) == count(line)
  {
    AddNothing(count(line));
  }

  lemma PiecesConcat(a: seq<string>, b: seq<string>)
    ensures AllPieces(a + b) == AllPieces(a) + AllPieces(b)
  {
    FlattenConcat(Pieces, a, b);
  }

  lemma FlattenOne(f: string -> seq<string>, line: string)
    ensures Flatten(f, [line]) == f(line)
  {
    assert [line][1..] == [] && f(line) + [] == f(line);
  }

  lemma PiecesOfOne(line: string)
    ensures AllPieces([line]) == Pieces(line)
  {
    FlattenOne(Pieces, line);
  }

  lemma {:induction false} ScanConcat(st: ScanState, a: seq<string>, b: seq<string>, lib: Library)
    ensures ScanLines(st, a + b, lib) == ScanLines(ScanLines(st, a, lib), b, lib)
    decreases |a|
  {
    if a == [] {
      assert a + b == b;
    } else {
      ScanConcat(ScanLine(st, a[0], lib), a[1..], b, lib);
      assert (a + b)[1..] == a[1..] + b;
    }
  }

  function Gain(st: ScanState, g: Summary): ScanState
  {
    st.(added := st.added + g.added, deleted := st.deleted + g.deleted,
      fingerprints := st.fingerprints + g.fingerprints)
  }

  lemma Prefixes(line: string)
    ensures StartsWith(line, "+") <==> line != [] && line[0] == '+'
    ensures StartsWith(line, "-") <==> line != [] && line[0] == '-'
    ensures StartsWith(line, "@@ ") ==> line[0] == '@'
    ensures StartsWith(line, "+++ ") ==> line[0] == '+'
    ensures StartsWith(line, "--- ") ==> line[0] == '-'
    ensures IsGit(line) ==> line[0] == 'd'
  {
    if StartsWith(line, "+") { assert line[..1][0] == '+'; }
    if StartsWith(line, "-") { assert line[..1][0] == '-'; }
    if StartsWith(line, "@@ ") { assert line[..3][0] == '@'; }
    if StartsWith(line, "+++ ") { assert line[..4][0] == '+'; }
    if StartsWith(line, "--- ") { assert line[..4][0] == '-'; }
    if IsGit(line) { assert line[..11][0] == 'd'; }
    assert line != [] ==> line[..1] == [line[0]];
  }

  lemma LineInHunk(st: ScanState, line: string, lib: Library)
    requires st.inHunk && !IsGit(line)
    ensures ScanLine(st, line, lib) == Gain(st, LineSummary(st.path, line, lib))
  {
    Prefixes(line);
    assert st.fingerprints + [] == st.fingerprints;
  }

  lemma GainTwice(st: ScanState, g: Summary, h: Summary)
    ensures Gain(Gain(st, g), h) == Gain(st, Add(g, h)) && Gain(st, NOTHING) == st
  {
    assert (st.fingerprints + g.fingerprints) + h.fingerprints == st.fingerprints + (g.fingerprints + h.fingerprints);
    assert st.fingerprints + [] == st.fingerprints;
  }

  /** Inside a hunk every line that does not start another file counts by its first character. */
  lemma {:induction false} InHunk(st: ScanState, lines: seq<string>, lib: Library)
    requires st.inHunk && forall i | 0 <= i < |lines| :: !IsGit(lines[i])
    ensures ScanLines(st, lines, lib) == Gain(st, Total(Counter(st.path, lib), lines))
    decreases |lines|
  {
    if lines == [] {
      GainTwice(st, NOTHING, NOTHING);
    } else {
      LineInHunk(st, lines[0], lib);
      var g, rest := Counter(st.path, lib)(lines[0]), Total(Counter(st.path, lib), lines[1..]);
      InHunk(Gain(st, g), lines[1..], lib);
      GainTwice(st, g, rest);
    }
  }

  // ---------------------------------------------------------------- lines with breaks inside

  /** What a line is meant to count for. */
  function Wanted(count: string -> Summary): string -> Summary
  {
    line => count(Chomp(line))
  }

  /** What the pieces after a line's first one count for: they are no lines of the diff. */
  function Strays(count: string -> Summary): string -> Summary
  {
    line => Total(count, Pieces(line)[1..])
  }

  /** The line starts with something other than a break, as every rendered line of a hunk does. */
  predicate Marked(line: string)
  {
    line != [] && !IsBreak(line[0])
  }

  lemma FirstPiece(line: string)
    requires Marked(line)
    ensures Pieces(line)[0] != [] && Pieces(line)[0][0] == line[0] && Chomp(line) != [] && Chomp(line)[0] == line[0]
  {
    PiecesAfter(line[..1], line[1..]);
    assert line == line[..1] + line[1..];
  }

  /** Only the first character of a line decides the numbers. */
  ghost predicate ByFirstCharacter(count: string -> Summary)
  {
    forall a, b | a != [] && b != [] && a[0] == b[0] :: count(a).added == count(b).added
      && count(a).deleted == count(b).deleted
  }

  /** The pieces count for what the lines are meant to and for the strays. */
  lemma {:induction false} PiecesCount(count: string -> Summary, lines: seq<string>)
    requires ByFirstCharacter(count) && forall line | line in lines :: Marked(line)
    ensures var got := Total(count, AllPieces(lines));
      && got.added == Total(Wanted(count), lines).added + Total(Strays(count), lines).added
      && got.deleted == Total(Wanted(count), lines).deleted + Total(Strays(count), lines).deleted
  {
    if lines != [] {
      var pieces := Pieces(lines[0]);
      PiecesCount(count, lines[1..]);
      FirstPiece(lines[0]);
      TotalConcat(count, pieces, AllPieces(lines[1..]));
      assert Total(count, pieces) == Add(count(pieces[0]), Strays(count)(lines[0]));
    }
  }

  lemma CleanFirst(count: string -> Summary, line: string, rest: seq<string>)
    requires Clean(line)
    ensures Total(count, Pieces(line) + rest) == Add(Wanted(count)(line), Total(count, rest))
    ensures Strays(count)(line) == NOTHING
  {
    PiecesOfClean(line);
    assert [Chomp(line)][1..] == [];
    assert ([Chomp(line)] + rest)[1..] == rest;
  }

  /** Without breaks inside the pieces are the lines ... */
  lemma {:induction false} CleanPieces(count: string -> Summary, lines: seq<string>)
    requires forall line | line in lines :: Clean(line)
    ensures Total(count, AllPieces(lines)) == Total(Wanted(count), lines)
  {
    if lines != [] {
      CleanPieces(count, lines[1..]);
      CleanFirst(count, lines[0], AllPieces(lines[1..]));
    }
  }

  /** ... and there are no strays. */
  lemma {:induction false} CleanStrays(count: string -> Summary, lines: seq<string>)
    requires forall line | line in lines :: Clean(line)
    ensures Total(Strays(count), lines) == NOTHING
  {
    if lines != [] {
      CleanStrays(count, lines[1..]);
      CleanFirst(count, lines[0], []);
      AddNothing(NOTHING);
    }
  }

  // ---------------------------------------------------------------- what the scan should return

  /** The path of a name, which may have been read with its carriage return. */
  function NewPath(f: FileDiff): Option<string>
  {
    if f.names.Some? then NormalizePath(Chomp(f.names.value.1)) else None
  }

  function AllLines(hunks: seq<Hunk>): seq<BodyLine>
  {
    if hunks == [] then [] else hunks[0].body + AllLines(hunks[1..])
  }

  /** An added line counts for itself and, if it is effective, for a fingerprint under the path. */
  function Own(path: Option<string>, b: BodyLine, lib: Library): Summary
  {
    match b
    case Added(text) => Summary(1, 0, FingerprintOf(path, Chomp(text), lib))
    case Removed(_) => Summary(0, 1, [])
    case _ => NOTHING
  }

  function BodySummary(path: Option<string>, body: seq<BodyLine>, lib: Library): Summary
  {
    Total(OwnCounter(path, lib), body)
  }

  function OwnCounter(path: Option<string>, lib: Library): BodyLine -> Summary
  {
    b => Own(path, b, lib)
  }

  function Expected(files: seq<FileDiff>, lib: Library): Summary
  {
    Total((f: FileDiff) => FileSummary(f, lib), files)
  }

  function FileSummary(f: FileDiff, lib: Library): Summary
  {
    BodySummary(NewPath(f), AllLines(f.hunks), lib)
  }

  lemma WantedLine(path: Option<string>, b: BodyLine, lib: Library)
    ensures Wanted(Counter(path, lib))(RenderLine(b)) == Own(path, b, lib)
  {
    var line := RenderLine(b);
    assert line[0] == Sign(b) && line[|line| - 1] == (if b.text == [] then Sign(b) else b.text[|b.text| - 1]);
    assert Chomp(line) == [Sign(b)] + Chomp(b.text);
    assert Chomp(line)[1..] == Chomp(b.text);
  }

  lemma TotalCons<T>(count: T -> Summary, line: T, rest: seq<T>)
    ensures Total(count, [line] + rest) == Add(count(line), Total(count, rest))
  {
    assert ([line] + rest)[1..] == rest;
  }

  lemma {:induction false} WantedBody(path: Option<string>, body: seq<BodyLine>, lib: Library)
    ensures Total(Wanted(Counter(path, lib)), RenderBody(body)) == BodySummary(path, body, lib)
  {
    if body != [] {
      WantedLine(path, body[0], lib);
      WantedBody(path, body[1..], lib);
      TotalCons(Wanted(Counter(path, lib)), RenderLine(body[0]), RenderBody(body[1..]));
    }
  }

  lemma RangeCounts(path: Option<string>, range: string, lib: Library)
    ensures Wanted(Counter(path, lib))("@@ " + range) == NOTHING && Marked("@@ " + range)
  {
    var line := "@@ " + range;
    assert line[0] == '@' && !IsBreak('@');
    FirstPiece(line);
  }

  lemma {:induction false} WantedHunks(path: Option<string>, hunks: seq<Hunk>, lib: Library)
    ensures Total(Wanted(Counter(path, lib)), RenderHunks(hunks)) == BodySummary(path, AllLines(hunks), lib)
  {
    if hunks != [] {
      var count := Wanted(Counter(path, lib));
      var h, rest := hunks[0], RenderHunks(hunks[1..]);
      WantedHunks(path, hunks[1..], lib);
      WantedBody(path, h.body, lib);
      RangeCounts(path, h.range, lib);
      TotalOfOne(count, "@@ " + h.range);
      TotalConcat(count, ["@@ " + h.range] + RenderBody(h.body), rest);
      TotalConcat(count, ["@@ " + h.range], RenderBody(h.body));
      TotalConcat(OwnCounter(path, lib), h.body, AllLines(hunks[1..]));
      AddNothing(BodySummary(path, h.body, lib));
    }
  }

  lemma {:induction false} BodyMarked(body: seq<BodyLine>)
    ensures forall line | line in RenderBody(body) :: Marked(line)
  {
    if body != [] { BodyMarked(body[1..]); }
  }

  lemma {:induction false} HunksMarked(hunks: seq<Hunk>)
    ensures forall line | line in RenderHunks(hunks) :: Marked(line)
  {
    if hunks != [] {
      HunksMarked(hunks[1..]);
      BodyMarked(hunks[0].body);
      assert ("@@ " + hunks[0].range)[0] == '@';
    }
  }

  lemma CounterByFirst(path: Option<string>, lib: Library)
    ensures ByFirstCharacter(Counter(path, lib))
  {
  }

  // ---------------------------------------------------------------- scanning what was rendered

  /** The header lines are written by the tool: nothing in them breaks the line. Every other line may hold
      any character but the newline that ends it. */
  predicate WellFormed(f: FileDiff)
  {
    Clean("diff --git " + f.git) && PlainForm(f)
  }

  predicate PlainForm(f: FileDiff)
  {
    && (forall line | line in f.extended :: Inert(line) && Clean(line))
    && (forall line | line in RenderNames(f.names) :: Clean(line))
    && (f.names == None ==> f.hunks == [])
    && (forall line | line in RenderHunks(f.hunks) :: OneLine(line))
  }

  /** No piece inside a hunk looks like the start of another file: only then does the rest of the hunk belong to it. */
  predicate NoHiddenStart(f: FileDiff)
  {
    forall piece | piece in AllPieces(RenderHunks(f.hunks)) :: !IsGit(piece)
  }

  lemma ScanOne(st: ScanState, line: string, lib: Library)
    ensures ScanLines(st, [line], lib) == ScanLine(st, line, lib)
  {
    assert [line][1..] == [];
  }

  lemma {:induction false} ScanInert(st: ScanState, lines: seq<string>, lib: Library)
    requires forall line | line in lines :: Inert(line)
    ensures ScanLines(st, lines, lib) == st
    decreases |lines|
  {
    if lines != [] {
      assert Inert(lines[0]);
      Prefixes(lines[0]);
      ScanInert(st, lines[1..], lib);
    }
  }

  lemma ChompInert(line: string)
    requires Inert(line)
    ensures Inert(Chomp(line))
  {
    ChompStarts(line, "diff --git ");
    ChompStarts(line, "@@ ");
    ChompStarts(line, "+");
    ChompStarts(line, "-");
  }

  lemma ChompStarts(line: string, prefix: string)
    ensures StartsWith(Chomp(line), prefix) ==> StartsWith(line, prefix)
  {
    assert |prefix| <= |Chomp(line)| ==> Chomp(line)[..|prefix|] == line[..|prefix|];
  }

  lemma {:induction false} InertPieces(lines: seq<string>)
    requires forall line | line in lines :: Inert(line) && Clean(line)
    ensures forall piece | piece in AllPieces(lines) :: Inert(piece)
  {
    if lines != [] {
      PiecesOfClean(lines[0]);
      ChompInert(lines[0]);
      InertPieces(lines[1..]);
    }
  }

  lemma ScanGit(st: ScanState, git: string, lib: Library)
    requires Clean("diff --git " + git)
    ensures ScanLines(st, Pieces("diff --git " + git), lib) == st.(path := None, inHunk := false)
  {
    var line := "diff --git " + git;
    PiecesOfClean(line);
    assert line[..11] == "diff --git ";
    assert |line| > 11 ==> Chomp(line)[..11] == line[..11];
    assert |line| == 11 ==> line[10] == ' ' && Chomp(line) == line;
    ScanOne(st, Chomp(line), lib);
  }

  lemma ChompName(mark: string, name: string)
    requires mark == "--- " || mark == "+++ "
    ensures var line := Chomp(mark + name); |line| >= 4 && line[..4] == mark && line[4..] == Chomp(name)
  {
    var line := mark + name;
    assert line[..4] == mark && line[4..] == name;
    assert name == [] ==> line[|line| - 1] == ' ';
    assert name != [] ==> line[|line| - 1] == name[|name| - 1];
  }

  /** Before the first hunk of a file the names are read as names. */
  lemma ScanNames(st: ScanState, f: FileDiff, lib: Library)
    requires !st.inHunk && (f.names == None ==> st.path == None) && forall line | line in RenderNames(f.names) ::
      Clean(line)
    ensures ScanLines(st, AllPieces(RenderNames(f.names)), lib) == st.(path := NewPath(f))
  {
    if f.names.Some? {
      var l0, l1 := "--- " + f.names.value.0, "+++ " + f.names.value.1;
      NamePieces(f.names.value);
      ChompName("--- ", f.names.value.0);
      ChompName("+++ ", f.names.value.1);
      Prefixes(Chomp(l0));
      Prefixes(Chomp(l1));
      assert Chomp(l0)[0] == Chomp(l0)[..4][0] == '-' && Chomp(l1)[0] == Chomp(l1)[..4][0] == '+';
      ScanConcat(st, [Chomp(l0)], [Chomp(l1)], lib);
      ScanOne(st, Chomp(l0), lib);
      ScanOne(st, Chomp(l1), lib);
    }
  }

  lemma NamePieces(names: (string, string))
    requires forall line | line in RenderNames(Some(names)) :: Clean(line)
    ensures AllPieces(RenderNames(Some(names))) == [Chomp("--- " + names.0)] + [Chomp("+++ " + names.1)]
  {
    var lines := RenderNames(Some(names));
    assert lines[0] in lines && lines[1] in lines;
    PiecesOfClean(lines[0]);
    PiecesOfClean(lines[1]);
    PiecesConcat([lines[0]], [lines[1]]);
    PiecesOfOne(lines[0]);
    PiecesOfOne(lines[1]);
    assert lines == [lines[0]] + [lines[1]];
  }

  // A piece that looks like a `diff --git` line is a hidden start: the scan forgets path and hunk there.

  /** The lines before the first start of a file. */
  function Before(lines: seq<string>): seq<string>
  {
    if lines == [] || IsGit(lines[0]) then [] else [lines[0]] + Before(lines[1..])
  }

  /** The lines after it. */
  function After(lines: seq<string>): seq<string>
  {
    if lines == [] then [] else if IsGit(lines[0]) then lines[1..] else After(lines[1..])
  }

  function SummaryOf(st: ScanState): Summary
  {
    Summary(st.added, st.deleted, st.fingerprints)
  }

  /** What the scan counts from its start, outside any hunk and without a path. */
  function Rescan(lib: Library): seq<string> -> Summary
  {
    lines => SummaryOf(ScanLines(START, lines, lib))
  }

  function Emptied(st: ScanState): ScanState
  {
    ScanState(st.path, st.inHunk, 0, 0, [])
  }

  lemma LineGains(st: ScanState, line: string, lib: Library)
    ensures var r, r0 := ScanLine(st, line, lib), ScanLine(Emptied(st), line, lib);
      Gained(st, r, SummaryOf(r0)) && Emptied(r) == Emptied(r0)
  {
    assert st.fingerprints + [] == st.fingerprints;
  }

  /** What was counted before does not matter. */
  lemma {:induction false} ScanGains(st: ScanState, lines: seq<string>, lib: Library)
    ensures Gained(st, ScanLines(st, lines, lib), SummaryOf(ScanLines(Emptied(st), lines, lib)))
    decreases |lines|
  {
    if lines == [] {
      assert st.fingerprints + [] == st.fingerprints;
    } else {
      var st1, st0, rest := ScanLine(st, lines[0], lib), ScanLine(Emptied(st), lines[0], lib), lines[1..];
      LineGains(st, lines[0], lib);
      ScanGains(st1, rest, lib);
      ScanGains(st0, rest, lib);
      GainedTwice(st, st1, ScanLines(st1, rest, lib), SummaryOf(st0), SummaryOf(ScanLines(Emptied(st1), rest, lib)));
    }
  }

  /** What lines count for that are counted one by one up to a hidden start and otherwise after it. */
  function ToStart(count: string -> Summary, rescan: seq<string> -> Summary, lines: seq<string>): Summary
  {
    Add(Total(count, Before(lines)), rescan(After(lines)))
  }

  lemma ToStartCons(count: string -> Summary, rescan: seq<string> -> Summary, lines: seq<string>)
    requires lines != [] && !IsGit(lines[0])
    ensures ToStart(count, rescan, lines) == Add(count(lines[0]), ToStart(count, rescan, lines[1..]))
  {
    TotalCons(count, lines[0], Before(lines[1..]));
    AddAssociates(count(lines[0]), Total(count, Before(lines[1..])), rescan(After(lines[1..])));
  }

  lemma ToStartGit(count: string -> Summary, rescan: seq<string> -> Summary, lines: seq<string>)
    requires lines != [] && IsGit(lines[0])
    ensures ToStart(count, rescan, lines) == rescan(lines[1..])
  {
    AddNothing(rescan(lines[1..]));
  }

  lemma ToStartEmpty(count: string -> Summary, rescan: seq<string> -> Summary, lines: seq<string>)
    requires lines == [] && rescan([]) == NOTHING
    ensures ToStart(count, rescan, lines) == NOTHING
  {
    AddNothing(NOTHING);
  }

  lemma RescanEmpty(lines: seq<string>, lib: Library)
    requires lines == []
    ensures Rescan(lib)(lines) == NOTHING
  {
    NothingCounted(START, lines, lib);
  }

  lemma NothingCounted(st: ScanState, lines: seq<string>, lib: Library)
    requires lines == []
    ensures SummaryOf(ScanLines(st, lines, lib)) == SummaryOf(st)
  {
  }

  lemma NothingScanned(st: ScanState, lines: seq<string>, lib: Library)
    requires lines == []
    ensures ScanLines(st, lines, lib) == st && Gained(st, st, NOTHING)
  {
    assert st.fingerprints + [] == st.fingerprints;
  }

  lemma StartForgets(st: ScanState, line: string, rest: seq<string>, lib: Library)
    requires IsGit(line)
    ensures Gained(st, ScanLines(ScanLine(st, line, lib), rest, lib), Rescan(lib)(rest))
  {
    ScanGains(st.(path := None, inHunk := false), rest, lib);
  }

  /** In a hunk the lines count up to a hidden start; what follows is scanned afresh. */
  lemma {:induction false} InHunkToStart(st: ScanState, lines: seq<string>, lib: Library)
    requires st.inHunk
    ensures Gained(st, ScanLines(st, lines, lib), ToStart(Counter(st.path, lib), Rescan(lib), lines))
    decreases |lines|
  {
    var count := Counter(st.path, lib);
    if lines == [] {
      RescanEmpty([], lib);
      ToStartEmpty(count, Rescan(lib), lines);
      NothingScanned(st, lines, lib);
    } else if IsGit(lines[0]) {
      ToStartGit(count, Rescan(lib), lines);
      StartForgets(st, lines[0], lines[1..], lib);
    } else {
      var g, rest := count(lines[0]), lines[1..];
      LineInHunk(st, lines[0], lib);
      InHunkToStart(Gain(st, g), rest, lib);
      ToStartCons(count, Rescan(lib), lines);
      GainedTwice(st, Gain(st, g), ScanLines(st, lines, lib), g, ToStart(count, Rescan(lib), rest));
    }
  }

  /** The first line of the first hunk opens it; from there the lines count. */
  lemma OpenHunk(st: ScanState, hunks: seq<Hunk>, lib: Library)
    requires hunks != []
    ensures var lines := AllPieces(RenderHunks(hunks));
      && lines != [] && !IsGit(lines[0]) && Counter(st.path, lib)(lines[0]) == NOTHING
      && ScanLines(st, lines, lib) == ScanLines(st.(inHunk := true), lines[1..], lib)
  {
    RangeFirst(hunks);
    Prefixes(AllPieces(RenderHunks(hunks))[0]);
  }

  lemma RangeFirst(hunks: seq<Hunk>)
    requires hunks != []
    ensures var lines := AllPieces(RenderHunks(hunks)); lines != [] && StartsWith(lines[0], "@@ ")
  {
    var line := "@@ " + hunks[0].range;
    assert RenderHunks(hunks)[0] == line;
    PiecesAfter("@@ ", hunks[0].range);
    assert Pieces(line)[0][..3] == "@@ ";
  }

  /** The scan from one state to another counted this. */
  predicate Gained(st: ScanState, r: ScanState, gain: Summary)
  {
    r.added == st.added + gain.added && r.deleted == st.deleted + gain.deleted
      && r.fingerprints == st.fingerprints + gain.fingerprints
  }

  lemma GainedTwice(a: ScanState, b: ScanState, c: ScanState, g: Summary, h: Summary)
    requires Gained(a, b, g) && Gained(b, c, h)
    ensures Gained(a, c, Add(g, h))
  {
  }

  lemma ScanHunks(st: ScanState, hunks: seq<Hunk>, lib: Library)
    ensures var lines := AllPieces(RenderHunks(hunks));
      Gained(st, ScanLines(st, lines, lib), ToStart(Counter(st.path, lib), Rescan(lib), lines))
  {
    var lines := AllPieces(RenderHunks(hunks));
    if hunks == [] {
      ScanNoHunks(st, lines, lib);
    } else {
      OpenHunk(st, hunks, lib);
      InHunkToStart(st.(inHunk := true), lines[1..], lib);
      ToStartCons(Counter(st.path, lib), Rescan(lib), lines);
      GainedBehind(st, ScanLines(st, lines, lib), Counter(st.path, lib)(lines[0]),
        ToStart(Counter(st.path, lib), Rescan(lib), lines[1..]));
    }
  }

  /** A first line that counts for nothing can be passed over. */
  lemma GainedBehind(st: ScanState, r: ScanState, first: Summary, more: Summary)
    requires first == NOTHING && Gained(st.(inHunk := true), r, more)
    ensures Gained(st, r, Add(first, more))
  {
    AddNothing(more);
  }

  lemma ScanNoHunks(st: ScanState, lines: seq<string>, lib: Library)
    requires lines == []
    ensures Gained(st, ScanLines(st, lines, lib), ToStart(Counter(st.path, lib), Rescan(lib), lines))
  {
    RescanEmpty([], lib);
    ToStartEmpty(Counter(st.path, lib), Rescan(lib), lines);
    NothingScanned(st, lines, lib);
  }

  lemma {:induction false} NoStart(lines: seq<string>)
    requires forall line | line in lines :: !IsGit(line)
    ensures Before(lines) == lines && After(lines) == []
  {
    if lines != [] { NoStart(lines[1..]); }
  }

  /** Without a hidden start the scan is still in the last hunk of the file. */
  lemma EndsInHunk(st: ScanState, hunks: seq<Hunk>, lib: Library)
    requires forall piece | piece in AllPieces(RenderHunks(hunks)) :: !IsGit(piece)
    ensures var r := ScanLines(st, AllPieces(RenderHunks(hunks)), lib);
      (hunks == [] ==> r == st) && (hunks != [] ==> r.inHunk && r.path == st.path)
  {
    if hunks != [] {
      OpenHunk(st, hunks, lib);
      InHunk(st.(inHunk := true), AllPieces(RenderHunks(hunks))[1..], lib);
    }
  }

  /** The part of a file after its `diff --git` line, if any. */
  lemma ScanPlain(st: ScanState, f: FileDiff, lib: Library)
    requires PlainForm(f) && !st.inHunk && (f.names == None ==> st.path == None)
    ensures ScanLines(st, AllPieces(RenderPlain(f)), lib)
      == ScanLines(st.(path := NewPath(f)), AllPieces(RenderHunks(f.hunks)), lib)
    ensures Gained(st, ScanLines(st, AllPieces(RenderPlain(f)), lib), Actual(f, lib))
  {
    var e, n, h := f.extended, RenderNames(f.names), RenderHunks(f.hunks);
    PiecesConcat(e + n, h);
    PiecesConcat(e, n);
    InertPieces(e);
    ScanConcat(st, AllPieces(e) + AllPieces(n), AllPieces(h), lib);
    ScanConcat(st, AllPieces(e), AllPieces(n), lib);
    ScanInert(st, AllPieces(e), lib);
    ScanNames(st, f, lib);
    ScanHunks(st.(path := NewPath(f)), f.hunks, lib);
  }

  /** Where no hidden start ends the file. */
  lemma ScanUndisturbed(st: ScanState, f: FileDiff, lib: Library)
    requires PlainForm(f) && NoHiddenStart(f) && !st.inHunk && (f.names == None ==> st.path == None)
    ensures var r := ScanLines(st, AllPieces(RenderPlain(f)), lib);
      && Gained(st, r, Actual(f, lib)) && r.path == NewPath(f) && r.inHunk == (f.hunks != [])
  {
    ScanPlain(st, f, lib);
    EndsInHunk(st.(path := NewPath(f)), f.hunks, lib);
  }

  /** What the scan counts in one file. */
  function Actual(f: FileDiff, lib: Library): Summary
  {
    ToStart(Counter(NewPath(f), lib), Rescan(lib), AllPieces(RenderHunks(f.hunks)))
  }

  lemma ActualUndisturbed(f: FileDiff, lib: Library)
    requires NoHiddenStart(f)
    ensures Actual(f, lib) == Total(Counter(NewPath(f), lib), AllPieces(RenderHunks(f.hunks)))
  {
    RescanEmpty([], lib);
    Undisturbed(Counter(NewPath(f), lib), Rescan(lib), AllPieces(RenderHunks(f.hunks)));
  }

  lemma Undisturbed(count: string -> Summary, rescan: seq<string> -> Summary, lines: seq<string>)
    requires rescan([]) == NOTHING && forall line | line in lines :: !IsGit(line)
    ensures ToStart(count, rescan, lines) == Total(count, lines)
  {
    NoStart(lines);
    AddNothing(Total(count, lines));
  }

  lemma ScanFile(st: ScanState, f: FileDiff, lib: Library)
    requires WellFormed(f)
    ensures Gained(st, ScanLines(st, AllPieces(RenderFile(f)), lib), Actual(f, lib))
  {
    var git := ["diff --git " + f.git];
    PiecesConcat(git, RenderPlain(f));
    assert AllPieces(git) == Pieces(git[0]) + [] == Pieces(git[0]) by { assert git[1..] == []; }
    ScanConcat(st, Pieces(git[0]), AllPieces(RenderPlain(f)), lib);
    ScanGit(st, f.git, lib);
    ScanPlain(st.(path := None, inHunk := false), f, lib);
  }

  function ActualOfAll(files: seq<FileDiff>, lib: Library): Summary
  {
    Total((f: FileDiff) => Actual(f, lib), files)
  }

  lemma {:induction false} ScanFiles(st: ScanState, files: seq<FileDiff>, lib: Library)
    requires forall f | f in files :: WellFormed(f)
    ensures Gained(st, ScanLines(st, AllPieces(RenderFiles(files)), lib), ActualOfAll(files, lib))
    decreases |files|
  {
    if files == [] {
      assert st.fingerprints + [] == st.fingerprints;
    } else {
      var head, tail := RenderFile(files[0]), RenderFiles(files[1..]);
      PiecesConcat(head, tail);
      ScanConcat(st, AllPieces(head), AllPieces(tail), lib);
      var st1 := ScanLines(st, AllPieces(head), lib);
      ScanFile(st, files[0], lib);
      ScanFiles(st1, files[1..], lib);
      GainedTwice(st, st1, ScanLines(st1, AllPieces(tail), lib), Actual(files[0], lib), ActualOfAll(files[1..], lib));
    }
  }

  /** Scanning a rendered git diff, whatever the lines of its hunks hold, counts their pieces: up to a hidden start one
      fingerprint per effective piece that starts with a plus sign, under its file's normalised new path; what follows
      the hidden start in that file is scanned on its own. */
  lemma ScanRendered(files: seq<FileDiff>, lib: Library)
    requires forall f | f in files :: WellFormed(f)
    ensures Scan(Text(RenderFiles(files)), lib) == ActualOfAll(files, lib)
  {
    FilesOneLine(files);
    SplitsToPieces(RenderFiles(files));
    ScanFiles(START, files, lib);
    assert [] + ActualOfAll(files, lib).fingerprints == ActualOfAll(files, lib).fingerprints;
  }

  lemma FileOneLine(f: FileDiff)
    requires WellFormed(f)
    ensures forall line | line in RenderFile(f) :: OneLine(line)
  {
    forall line | Clean(line) ensures OneLine(line) { PiecesOfClean(line); }
  }

  lemma {:induction false} FilesOneLine(files: seq<FileDiff>)
    requires forall f | f in files :: WellFormed(f)
    ensures forall line | line in RenderFiles(files) :: OneLine(line)
  {
    if files != [] {
      FileOneLine(files[0]);
      FilesOneLine(files[1..]);
    }
  }

  /** The pieces of a file's hunks that are no lines of the diff. */
  function StraysOf(f: FileDiff, lib: Library): Summary
  {
    Total(Strays(Counter(NewPath(f), lib)), RenderHunks(f.hunks))
  }

  function StraysOfAll(files: seq<FileDiff>, lib: Library): Summary
  {
    Total((f: FileDiff) => StraysOf(f, lib), files)
  }

  lemma HunksCount(path: Option<string>, hunks: seq<Hunk>, lib: Library)
    ensures var count := Counter(path, lib); var got := Total(count, AllPieces(RenderHunks(hunks)));
      && got.added == BodySummary(path, AllLines(hunks), lib).added + Total(Strays(count), RenderHunks(hunks)).added
      && got.deleted
        == BodySummary(path, AllLines(hunks), lib).deleted + Total(Strays(count), RenderHunks(hunks)).deleted
  {
    CounterByFirst(path, lib);
    HunksMarked(hunks);
    PiecesCount(Counter(path, lib), RenderHunks(hunks));
    WantedHunks(path, hunks, lib);
  }

  /** The pieces outside hunks that are read as names, not counted. */
  function NamesRead(lines: seq<string>, inHunk: bool): Summary
  {
    if lines == [] then NOTHING
    else Add(NameIn(lines[0], inHunk), NamesRead(lines[1..], HunkAfter(lines[0], inHunk)))
  }

  function HunkAfter(line: string, inHunk: bool): bool
  {
    !IsGit(line) && (inHunk || StartsWith(line, "@@ "))
  }

  function NameIn(line: string, inHunk: bool): Summary
  {
    if inHunk then NOTHING else NameSummary(line)
  }

  function NameSummary(line: string): Summary
  {
    if StartsWith(line, "+++ ") then Summary(1, 0, [])
    else if StartsWith(line, "--- ") then Summary(0, 1, [])
    else NOTHING
  }

  /** What is read as a name after the hidden start of a file. */
  function MisreadOf(f: FileDiff): Summary
  {
    NamesRead(After(AllPieces(RenderHunks(f.hunks))), false)
  }

  function MisreadOfAll(files: seq<FileDiff>): Summary
  {
    Total(MisreadOf, files)
  }

  lemma LineOrName(st: ScanState, line: string, path: Option<string>, lib: Library)
    ensures var r, name, own := ScanLine(st, line, lib), NameIn(line, st.inHunk), LineSummary(path, line, lib);
      && r.added + name.added == st.added + own.added && r.deleted + name.deleted == st.deleted + own.deleted
      && r.inHunk == HunkAfter(line, st.inHunk)
  {
    Prefixes(line);
  }

  /** From any state every line that starts with a plus or minus sign is counted or read as a name. */
  lemma {:induction false} CountedOrName(st: ScanState, lines: seq<string>, path: Option<string>, lib: Library)
    ensures var r, names, all := ScanLines(st, lines, lib), NamesRead(lines, st.inHunk),
      Total(Counter(path, lib), lines);
      r.added + names.added == st.added + all.added && r.deleted + names.deleted == st.deleted + all.deleted
    decreases |lines|
  {
    if lines != [] {
      LineOrName(st, lines[0], path, lib);
      CountedOrName(ScanLine(st, lines[0], lib), lines[1..], path, lib);
    }
  }

  /** The line of the start itself counts for nothing. */
  lemma {:induction false} AroundStart(count: string -> Summary, lines: seq<string>)
    requires forall line | IsGit(line) :: count(line) == NOTHING
    ensures Total(count, lines) == Add(Total(count, Before(lines)), Total(count, After(lines)))
  {
    if lines == [] {
      AddNothing(NOTHING);
    } else if IsGit(lines[0]) {
      AddNothing(Total(count, lines[1..]));
    } else {
      AroundStart(count, lines[1..]);
      TotalCons(count, lines[0], Before(lines[1..]));
      AddAssociates(count(lines[0]), Total(count, Before(lines[1..])), Total(count, After(lines[1..])));
    }
  }

  lemma StartCountsNothing(path: Option<string>, lib: Library)
    ensures forall line | IsGit(line) :: Counter(path, lib)(line) == NOTHING
  {
    forall line | IsGit(line) ensures Counter(path, lib)(line) == NOTHING {
      Prefixes(line);
    }
  }

  lemma FileCount(f: FileDiff, lib: Library)
    ensures Actual(f, lib).added + MisreadOf(f).added == FileSummary(f, lib).added + StraysOf(f, lib).added
    ensures Actual(f, lib).deleted + MisreadOf(f).deleted == FileSummary(f, lib).deleted + StraysOf(f, lib).deleted
  {
    var pieces := AllPieces(RenderHunks(f.hunks));
    HunksCount(NewPath(f), f.hunks, lib);
    StartCountsNothing(NewPath(f), lib);
    AroundStart(Counter(NewPath(f), lib), pieces);
    CountedOrName(START, After(pieces), NewPath(f), lib);
  }

  lemma {:induction false} AllCount(files: seq<FileDiff>, lib: Library)
    ensures ActualOfAll(files, lib).added + MisreadOfAll(files).added
      == Expected(files, lib).added + StraysOfAll(files, lib).added
    ensures ActualOfAll(files, lib).deleted + MisreadOfAll(files).deleted
      == Expected(files, lib).deleted + StraysOfAll(files, lib).deleted
  {
    if files != [] {
      FileCount(files[0], lib);
      AllCount(files[1..], lib);
    }
  }

  lemma NothingMisread(files: seq<FileDiff>)
    requires forall i | 0 <= i < |files| :: NoHiddenStart(files[i])
    ensures MisreadOfAll(files) == NOTHING
  {
    forall i | 0 <= i < |files| ensures MisreadOf(files[i]) == NOTHING {
      NoStart(AllPieces(RenderHunks(files[i].hunks)));
    }
    NothingTotal(MisreadOf, files);
  }

  /** Both counts are too high by the pieces behind a break that start with a plus or minus sign, less those that are
      read as names after a hidden start; so they are exact if and only if there are as many of the one kind as of the
      other. */
  lemma CountsExactIff(files: seq<FileDiff>, lib: Library)
    requires forall f | f in files :: WellFormed(f)
    ensures var got, strays, names := Scan(Text(RenderFiles(files)), lib), StraysOfAll(files, lib), MisreadOfAll(files);
      && got.added + names.added == Expected(files, lib).added + strays.added
      && got.deleted + names.deleted == Expected(files, lib).deleted + strays.deleted
      && (got.added == Expected(files, lib).added && got.deleted == Expected(files, lib).deleted
          <==> strays.added == names.added && strays.deleted == names.deleted)
  {
    ScanRendered(files, lib);
    AllCount(files, lib);
  }

  /** No hunk line breaks inside; it may end in "\r\n". */
  predicate CleanHunks(f: FileDiff)
  {
    forall line | line in RenderHunks(f.hunks) :: Clean(line)
  }

  lemma CleanLinePieces(line: string)
    requires Marked(line) && line[0] != 'd' && Clean(line)
    ensures forall piece | piece in Pieces(line) :: !IsGit(piece)
  {
    PiecesOfClean(line);
    FirstPiece(line);
    Prefixes(Chomp(line));
  }

  lemma {:induction false} CleanNotGit(lines: seq<string>)
    requires forall line | line in lines :: Marked(line) && line[0] != 'd' && Clean(line)
    ensures forall piece | piece in AllPieces(lines) :: !IsGit(piece)
  {
    if lines != [] {
      CleanLinePieces(lines[0]);
      CleanNotGit(lines[1..]);
    }
  }

  lemma {:induction false} BodyFirst(body: seq<BodyLine>)
    ensures forall line | line in RenderBody(body) :: line != [] && line[0] != 'd'
  {
    if body != [] { BodyFirst(body[1..]); }
  }

  lemma {:induction false} HunksFirst(hunks: seq<Hunk>)
    ensures forall line | line in RenderHunks(hunks) :: line != [] && line[0] != 'd'
  {
    if hunks != [] {
      BodyFirst(hunks[0].body);
      HunksFirst(hunks[1..]);
      assert ("@@ " + hunks[0].range)[0] == '@';
    }
  }

  lemma {:induction false} CleanActual(files: seq<FileDiff>, lib: Library)
    requires forall f | f in files :: CleanHunks(f)
    ensures ActualOfAll(files, lib) == Expected(files, lib) && forall f | f in files :: NoHiddenStart(f)
  {
    if files != [] {
      var f := files[0];
      CleanActual(files[1..], lib);
      assert CleanHunks(f);
      HunksMarked(f.hunks);
      HunksFirst(f.hunks);
      CleanNotGit(RenderHunks(f.hunks));
      ActualUndisturbed(f, lib);
      CleanPieces(Counter(NewPath(f), lib), RenderHunks(f.hunks));
      WantedHunks(NewPath(f), f.hunks, lib);
    }
  }

  /** Scanning a rendered git diff, of text with either line ending, returns the exact counts and, in order, the
      fingerprints of the effective added lines under their file's normalised new path, also when body lines look
      like headers. */
  lemma ScanInvertsRender(files: seq<FileDiff>, lib: Library)
    requires forall f | f in files :: WellFormed(f) && CleanHunks(f)
    ensures Scan(Text(RenderFiles(files)), lib) == Expected(files, lib)
  {
    CleanActual(files, lib);
    ScanRendered(files, lib);
  }

  // ---------------------------------------------------------------- diffs without `diff --git` lines

  function RenderPlainFiles(files: seq<FileDiff>): seq<string>
  {
    if files == [] then [] else RenderPlain(files[0]) + RenderPlainFiles(files[1..])
  }

  /** The files after the first one that has a hunk. */
  function Swallowed(files: seq<FileDiff>): seq<FileDiff>
  {
    if files == [] then [] else if files[0].hunks == [] then Swallowed(files[1..]) else files[1..]
  }

  /** The path of the first file that has a hunk. */
  function HunkPath(files: seq<FileDiff>): Option<string>
  {
    if files == [] then None else if files[0].hunks == [] then HunkPath(files[1..]) else NewPath(files[0])
  }

  /** The hunks of the first file that has any. */
  function FirstHunks(files: seq<FileDiff>): seq<Hunk>
  {
    if files == [] then [] else if files[0].hunks == [] then FirstHunks(files[1..]) else files[0].hunks
  }

  /** What is counted: everything after the first hunk is read as part of it. */
  function PlainActual(files: seq<FileDiff>, lib: Library): Summary
  {
    Total(Counter(HunkPath(files), lib),
      AllPieces(RenderHunks(FirstHunks(files))) + AllPieces(RenderPlainFiles(Swallowed(files))))
  }

  predicate Named(f: FileDiff)
  {
    PlainForm(f) && NoHiddenStart(f) && f.names.Some?
  }

  lemma PlainNotGit(f: FileDiff)
    requires Named(f)
    ensures forall piece | piece in AllPieces(RenderPlain(f)) :: !IsGit(piece)
  {
    PiecesConcat(f.extended + RenderNames(f.names), RenderHunks(f.hunks));
    PiecesConcat(f.extended, RenderNames(f.names));
    InertPieces(f.extended);
    NamePieces(f.names.value);
    ChompName("--- ", f.names.value.0);
    ChompName("+++ ", f.names.value.1);
    var l0, l1 := Chomp("--- " + f.names.value.0), Chomp("+++ " + f.names.value.1);
    assert l0[0] == l0[..4][0] == '-' && l1[0] == l1[..4][0] == '+';
    Prefixes(l0);
    Prefixes(l1);
  }

  lemma {:induction false} PlainFilesNotGit(files: seq<FileDiff>)
    requires forall f | f in files :: Named(f)
    ensures forall piece | piece in AllPieces(RenderPlainFiles(files)) :: !IsGit(piece)
  {
    if files != [] {
      PlainNotGit(files[0]);
      PlainFilesNotGit(files[1..]);
      PiecesConcat(RenderPlain(files[0]), RenderPlainFiles(files[1..]));
    }
  }

  /** Until a file has a hunk the names are read as names ... */
  lemma PassFile(st: ScanState, files: seq<FileDiff>, lib: Library)
    requires files != [] && !st.inHunk && Named(files[0]) && files[0].hunks == []
    ensures var st1 := ScanLines(st, AllPieces(RenderPlain(files[0])), lib);
      && !st1.inHunk && Gained(st, st1, NOTHING)
      && ScanLines(st, AllPieces(RenderPlainFiles(files)), lib)
        == ScanLines(st1, AllPieces(RenderPlainFiles(files[1..])), lib)
  {
    PiecesConcat(RenderPlain(files[0]), RenderPlainFiles(files[1..]));
    ScanConcat(st, AllPieces(RenderPlain(files[0])), AllPieces(RenderPlainFiles(files[1..])), lib);
    ScanUndisturbed(st, files[0], lib);
    NoHunksNothing(files[0], lib);
  }

  lemma NoHunksNothing(f: FileDiff, lib: Library)
    requires f.hunks == []
    ensures Actual(f, lib) == NOTHING
  {
    RescanEmpty([], lib);
    ToStartEmpty(Counter(NewPath(f), lib), Rescan(lib), AllPieces(RenderHunks(f.hunks)));
  }

  lemma PlainActualSplits(files: seq<FileDiff>, lib: Library)
    requires files != [] && files[0].hunks != [] && NoHiddenStart(files[0])
    ensures PlainActual(files, lib)
         == Add(Actual(files[0], lib), Total(Counter(NewPath(files[0]), lib), AllPieces(RenderPlainFiles(files[1..]))))
  {
    ActualUndisturbed(files[0], lib);
    TotalConcat(Counter(NewPath(files[0]), lib), AllPieces(RenderHunks(files[0].hunks)),
      AllPieces(RenderPlainFiles(files[1..])));
  }

  lemma GainedRest(st: ScanState, st1: ScanState, g: Summary, lines: seq<string>, lib: Library)
    requires st1.inHunk && Gained(st, st1, g) && forall line | line in lines :: !IsGit(line)
    ensures Gained(st, ScanLines(st1, lines, lib), Add(g, Total(Counter(st1.path, lib), lines)))
  {
    InHunk(st1, lines, lib);
    var more := Total(Counter(st1.path, lib), lines);
    GainedTwice(st, st1, Gain(st1, more), g, more);
  }

  /** ... and then everything is read as part of the hunk. */
  lemma Swallow(st: ScanState, files: seq<FileDiff>, lib: Library)
    requires files != [] && !st.inHunk && files[0].hunks != [] && forall f | f in files :: Named(f)
    ensures Gained(st, ScanLines(st, AllPieces(RenderPlainFiles(files)), lib), PlainActual(files, lib))
  {
    var f, rest := files[0], AllPieces(RenderPlainFiles(files[1..]));
    PiecesConcat(RenderPlain(f), RenderPlainFiles(files[1..]));
    ScanConcat(st, AllPieces(RenderPlain(f)), rest, lib);
    assert Named(f);
    ScanUndisturbed(st, f, lib);
    PlainFilesNotGit(files[1..]);
    GainedRest(st, ScanLines(st, AllPieces(RenderPlain(f)), lib), Actual(f, lib), rest, lib);
    PlainActualSplits(files, lib);
  }

  lemma {:induction false} ScanPlainFiles(st: ScanState, files: seq<FileDiff>, lib: Library)
    requires !st.inHunk && forall f | f in files :: Named(f)
    ensures Gained(st, ScanLines(st, AllPieces(RenderPlainFiles(files)), lib), PlainActual(files, lib))
    decreases |files|
  {
    if files == [] {
      assert st.fingerprints + [] == st.fingerprints;
    } else if files[0].hunks == [] {
      PassFile(st, files, lib);
      var st1 := ScanLines(st, AllPieces(RenderPlain(files[0])), lib);
      ScanPlainFiles(st1, files[1..], lib);
      GainedTwice(st, st1, ScanLines(st, AllPieces(RenderPlainFiles(files)), lib), NOTHING,
        PlainActual(files[1..], lib));
      AddNothing(PlainActual(files[1..], lib));
    } else {
      Swallow(st, files, lib);
    }
  }

  predicate SameNumbers(a: Summary, b: Summary)
  {
    a.added == b.added && a.deleted == b.deleted
  }

  lemma {:induction false} TotalNumbers<T(!new)>(c: T -> Summary, d: T -> Summary, xs: seq<T>)
    requires forall x :: SameNumbers(c(x), d(x))
    ensures SameNumbers(Total(c, xs), Total(d, xs))
  {
    if xs != [] { TotalNumbers(c, d, xs[1..]); }
  }

  /** The path a line is filed under does not change the numbers. */
  lemma PathFree(p: Option<string>, q: Option<string>, hunks: seq<Hunk>, lib: Library)
    ensures SameNumbers(BodySummary(p, AllLines(hunks), lib), BodySummary(q, AllLines(hunks), lib))
    ensures SameNumbers(Total(Strays(Counter(p, lib)), RenderHunks(hunks)),
      Total(Strays(Counter(q, lib)), RenderHunks(hunks)))
  {
    TotalNumbers(OwnCounter(p, lib), OwnCounter(q, lib), AllLines(hunks));
    var c, d := Counter(p, lib), Counter(q, lib);
    forall line ensures SameNumbers(Strays(c)(line), Strays(d)(line)) {
      TotalNumbers(c, d, Pieces(line)[1..]);
    }
    TotalNumbers(Strays(c), Strays(d), RenderHunks(hunks));
  }

  lemma InertCounts(path: Option<string>, line: string, lib: Library)
    requires Inert(line)
    ensures Counter(path, lib)(line) == NOTHING
  {
    Prefixes(line);
  }

  lemma {:induction false} NothingTotal<T>(count: T -> Summary, lines: seq<T>)
    requires forall i | 0 <= i < |lines| :: count(lines[i]) == NOTHING
    ensures Total(count, lines) == NOTHING
  {
    if lines != [] {
      var rest := lines[1..];
      assert forall i | 0 <= i < |rest| :: rest[i] == lines[i + 1];
      NothingTotal(count, rest);
      AddNothing(NOTHING);
    }
  }

  lemma InertTotal(path: Option<string>, lines: seq<string>, lib: Library)
    requires forall line | line in lines :: Inert(line)
    ensures Total(Counter(path, lib), lines) == NOTHING
  {
    forall i | 0 <= i < |lines| ensures Counter(path, lib)(lines[i]) == NOTHING { InertCounts(path, lines[i], lib); }
    NothingTotal(Counter(path, lib), lines);
  }

  lemma NameCounts(path: Option<string>, name: string, lib: Library)
    ensures Counter(path, lib)(Chomp("--- " + name)) == Summary(0, 1, [])
    ensures Counter(path, lib)(Chomp("+++ " + name)) == Summary(1, 0, FingerprintOf(path, "++ " + Chomp(name), lib))
  {
    ChompName("--- ", name);
    ChompName("+++ ", name);
    var l0, l1 := Chomp("--- " + name), Chomp("+++ " + name);
    assert l0[0] == l0[..4][0] == '-' && l1[0] == l1[..4][0] == '+';
    assert l1[1..] == l1[..4][1..] + l1[4..];
  }

  /** Read inside a hunk, the names of a file count as a deleted and an added line. */
  lemma NamesTotal(path: Option<string>, f: FileDiff, lib: Library)
    requires Named(f)
    ensures Total(Counter(path, lib), AllPieces(RenderNames(f.names)))
         == Summary(1, 1, FingerprintOf(path, "++ " + Chomp(f.names.value.1), lib))
  {
    var l0, l1 := Chomp("--- " + f.names.value.0), Chomp("+++ " + f.names.value.1);
    NamePieces(f.names.value);
    NameCounts(path, f.names.value.0, lib);
    NameCounts(path, f.names.value.1, lib);
    TwoTotal(Counter(path, lib), l0, l1);
  }

  lemma TwoTotal(count: string -> Summary, a: string, b: string)
    ensures Total(count, [a] + [b]) == Add(count(a), count(b))
  {
    TotalConcat(count, [a], [b]);
    TotalOfOne(count, a);
    TotalOfOne(count, b);
  }

  lemma SwallowedFile(path: Option<string>, f: FileDiff, lib: Library)
    requires Named(f)
    ensures var got, body := Total(Counter(path, lib), AllPieces(RenderPlain(f))),
      BodySummary(NewPath(f), AllLines(f.hunks), lib);
      && got.added == 1 + body.added + StraysOf(f, lib).added
      && got.deleted == 1 + body.deleted + StraysOf(f, lib).deleted
  {
    var c, e, n, h := Counter(path, lib), f.extended, RenderNames(f.names), RenderHunks(f.hunks);
    PiecesConcat(e + n, h);
    PiecesConcat(e, n);
    TotalConcat(c, AllPieces(e) + AllPieces(n), AllPieces(h));
    TotalConcat(c, AllPieces(e), AllPieces(n));
    InertPieces(e);
    InertTotal(path, AllPieces(e), lib);
    NamesTotal(path, f, lib);
    HunksCount(path, f.hunks, lib);
    PathFree(path, NewPath(f), f.hunks, lib);
  }

  lemma {:induction false} SwallowedFiles(path: Option<string>, files: seq<FileDiff>, lib: Library)
    requires forall f | f in files :: Named(f)
    ensures var got := Total(Counter(path, lib), AllPieces(RenderPlainFiles(files)));
      && got.added == |files| + Expected(files, lib).added + StraysOfAll(files, lib).added
      && got.deleted == |files| + Expected(files, lib).deleted + StraysOfAll(files, lib).deleted
  {
    if files != [] {
      SwallowedFile(path, files[0], lib);
      SwallowedFiles(path, files[1..], lib);
      PiecesConcat(RenderPlain(files[0]), RenderPlainFiles(files[1..]));
      TotalConcat(Counter(path, lib), AllPieces(RenderPlain(files[0])), AllPieces(RenderPlainFiles(files[1..])));
    }
  }

  lemma {:induction false} PlainCounts(files: seq<FileDiff>, lib: Library)
    requires forall f | f in files :: Named(f)
    ensures PlainActual(files, lib).added
      == Expected(files, lib).added + StraysOfAll(files, lib).added + |Swallowed(files)|
    ensures PlainActual(files, lib).deleted
      == Expected(files, lib).deleted + StraysOfAll(files, lib).deleted + |Swallowed(files)|
  {
    if files == [] {
    } else if files[0].hunks == [] {
      PlainCounts(files[1..], lib);
    } else {
      var path := NewPath(files[0]);
      HunksCount(path, files[0].hunks, lib);
      SwallowedFiles(path, files[1..], lib);
      TotalConcat(Counter(path, lib), AllPieces(RenderHunks(files[0].hunks)), AllPieces(RenderPlainFiles(files[1..])));
    }
  }

  lemma {:induction false} FiledUnder(path: Option<string>, lines: seq<string>, lib: Library)
    ensures forall p | p in Total(Counter(path, lib), lines).fingerprints :: path.Some?
             && p.pathHash == lib.hash("path", path.value)
  {
    if lines != [] { FiledUnder(path, lines[1..], lib); }
  }

  lemma {:induction false} PlainOneLine(files: seq<FileDiff>)
    requires forall f | f in files :: Named(f)
    ensures forall line | line in RenderPlainFiles(files) :: OneLine(line)
  {
    if files != [] {
      forall line | Clean(line) ensures OneLine(line) { PiecesOfClean(line); }
      assert Named(files[0]);
      PlainOneLine(files[1..]);
    }
  }

  /** Named files without `diff --git` lines: every file after the first one that has a hunk adds one to both counts,
      for its names, and the fingerprints of its lines are filed under the path of that first file. The counts are exact
      if and only if no file comes after it (and no piece is stray). */
  lemma WithoutGitLines(files: seq<FileDiff>, lib: Library)
    requires forall f | f in files :: Named(f)
    ensures var got, strays, k := Scan(Text(RenderPlainFiles(files)), lib), StraysOfAll(files, lib), |Swallowed(files)|;
      && got.added == Expected(files, lib).added + strays.added + k
      && got.deleted == Expected(files, lib).deleted + strays.deleted + k
      && (got.added == Expected(files, lib).added && got.deleted == Expected(files, lib).deleted
          <==> k == 0 && strays.added == 0 && strays.deleted == 0)
      && (forall p | p in got.fingerprints :: HunkPath(files).Some?
           && p.pathHash == lib.hash("path", HunkPath(files).value))
  {
    PlainOneLine(files);
    SplitsToPieces(RenderPlainFiles(files));
    ScanPlainFiles(START, files, lib);
    PlainCounts(files, lib);
    FiledUnder(HunkPath(files),
      AllPieces(RenderHunks(FirstHunks(files))) + AllPieces(RenderPlainFiles(Swallowed(files))), lib);
    assert [] + PlainActual(files, lib).fingerprints == PlainActual(files, lib).fingerprints;
  }

  // ---------------------------------------------------------------- diffs the counts are wrong for

  /** A file whose only hunk is one line. */
  function OneLineFile(name: string, line: BodyLine): FileDiff
  {
    FileDiff(name, [], Some((name, name)), [Hunk("", [line])])
  }

  lemma OneLineHunks(name: string, line: BodyLine)
    ensures RenderHunks(OneLineFile(name, line).hunks) == ["@@ "] + [RenderLine(line)]
      && AllLines(OneLineFile(name, line).hunks) == [line]
  {
    var hunks := OneLineFile(name, line).hunks;
    assert hunks[1..] == [] && [line][1..] == [];
    assert RenderBody([line]) == [RenderLine(line)] + [];
    assert "@@ " + hunks[0].range == "@@ ";
    assert RenderHunks(hunks) == ["@@ "] + RenderBody([line]) + [];
    assert AllLines(hunks) == [line] + [];
  }

  lemma CleanMark(mark: string, name: string)
    requires NoBreaks(mark) && NoBreaks(name)
    ensures Clean(mark + name)
  {
    assert NoBreaks(mark + name);
  }

  lemma OneLineHeader(f: FileDiff, name: string)
    requires NoBreaks(name) && f.git == name && f.extended == [] && f.names == Some((name, name))
    requires forall line | line in RenderHunks(f.hunks) :: OneLine(line)
    ensures WellFormed(f)
  {
    CleanMark("diff --git ", name);
    CleanMark("--- ", name);
    CleanMark("+++ ", name);
  }

  lemma OneLineForm(name: string, line: BodyLine)
    requires NoBreaks(name) && OneLine(RenderLine(line)) && forall piece | piece in Pieces(RenderLine(line)) ::
      !IsGit(piece)
    ensures WellFormed(OneLineFile(name, line)) && NoHiddenStart(OneLineFile(name, line))
  {
    OneLineHunks(name, line);
    OneLineHeader(OneLineFile(name, line), name);
    PiecesOfClean("@@ ");
    PiecesConcat(["@@ "], [RenderLine(line)]);
    PiecesOfOne("@@ ");
    PiecesOfOne(RenderLine(line));
    Prefixes("@@ ");
  }

  lemma TwoPieces(head: string, c: char, tail: string)
    requires NoBreaks(head) && NoBreaks(tail) && IsBreak(c) && c != '\n' && (tail != [] || c != '\r')
    ensures Pieces(head + [c] + tail) == [head, tail]
  {
    var s := [c] + tail;
    PiecesAfter(head, s);
    assert head + [c] + tail == head + s;
    assert Chomp(tail) == tail;
    PiecesOfClean(tail);
    var t := s + ['\n'];
    assert t[0] == c && t[1] == (tail + ['\n'])[0] && t[1..] == tail + ['\n'];
    assert Pieces(s) == [[]] + Pieces(tail);
    assert head + [] == head;
  }

  /** A context line with a break inside counts as an added line if a plus sign follows the break. */
  lemma BreakInsideIsCounted(name: string, head: string, c: char, tail: string, lib: Library)
    requires NoBreaks(name) && NoBreaks(head) && NoBreaks(tail) && IsBreak(c) && c != '\n'
    ensures var files := [OneLineFile(name, Context(head + [c] + ("+" + tail)))];
      Expected(files, lib).added == 0 && Scan(Text(RenderFiles(files)), lib).added == 1
  {
    var line := Context(head + [c] + ("+" + tail));
    var f, raw := OneLineFile(name, line), RenderLine(line);
    var count := Counter(NewPath(f), lib);
    assert raw == (" " + head) + [c] + ("+" + tail);
    TwoPieces(" " + head, c, "+" + tail);
    Prefixes(" " + head);
    Prefixes("+" + tail);
    forall ch | ch in raw ensures ch != '\n' {}
    OneLineForm(name, line);
    CountsExactIff([f], lib);
    NothingMisread([f]);
    OneLineHunks(name, line);
    ExpectedOfOne(f, line, lib);
    StraysOfFile(f, lib);
    StraysOfOneLine(count, raw, " " + head, "+" + tail);
  }

  lemma ExpectedOfOne(f: FileDiff, line: BodyLine, lib: Library)
    requires AllLines(f.hunks) == [line]
    ensures Expected([f], lib) == Own(NewPath(f), line, lib)
  {
    TotalOfOne((f: FileDiff) => FileSummary(f, lib), f);
    TotalOfOne(OwnCounter(NewPath(f), lib), line);
  }

  lemma StraysOfFile(f: FileDiff, lib: Library)
    ensures StraysOfAll([f], lib) == StraysOf(f, lib)
  {
    TotalOfOne((f: FileDiff) => StraysOf(f, lib), f);
  }

  lemma StraysOfOneLine(count: string -> Summary, line: string, first: string, second: string)
    requires Pieces(line) == [first, second]
    ensures Total(Strays(count), ["@@ "] + [line]) == count(second)
  {
    CleanFirst(count, "@@ ", []);
    assert [first, second][1..] == [second];
    TotalOfOne(count, second);
    TwoTotal(Strays(count), "@@ ", line);
    AddNothing(count(second));
  }

  lemma NoStrays(files: seq<FileDiff>, lib: Library)
    requires forall i | 0 <= i < |files| :: CleanHunks(files[i])
    ensures StraysOfAll(files, lib) == NOTHING
  {
    forall i | 0 <= i < |files| ensures StraysOf(files[i], lib) == NOTHING {
      CleanStrays(Counter(NewPath(files[i]), lib), RenderHunks(files[i].hunks));
    }
    NothingTotal((f: FileDiff) => StraysOf(f, lib), files);
  }

  lemma SwallowedPair(f: FileDiff, g: FileDiff)
    requires f.hunks != []
    ensures Swallowed([f, g]) == [g]
  {
    assert [f, g][1..] == [g];
  }

  lemma OneSwallowed(files: seq<FileDiff>, lib: Library)
    requires |Swallowed(files)| == 1 && forall f | f in files :: Named(f) && CleanHunks(f)
    ensures var got, want := Scan(Text(RenderPlainFiles(files)), lib), Expected(files, lib);
      got.added == want.added + 1 && got.deleted == want.deleted + 1
  {
    WithoutGitLines(files, lib);
    NoStrays(files, lib);
  }

  /** So of any two named files, the first with a hunk, the second has its names counted. */
  lemma SecondNamesAreCounted(f: FileDiff, g: FileDiff, lib: Library)
    requires Named(f) && Named(g) && CleanHunks(f) && CleanHunks(g) && f.hunks != []
    ensures var got, want := Scan(Text(RenderPlainFiles([f, g])), lib), Expected([f, g], lib);
      got.added == want.added + 1 && got.deleted == want.deleted + 1
  {
    SwallowedPair(f, g);
    OneSwallowed([f, g], lib);
  }

  function EmptyHunkFile(name: string): FileDiff
  {
    FileDiff("", [], Some((name, name)), [Hunk("", [])])
  }

  lemma EmptyHunk(hunks: seq<Hunk>)
    requires hunks == [Hunk("", [])]
    ensures RenderHunks(hunks) == ["@@ "] && AllLines(hunks) == []
  {
    assert hunks[1..] == [] && "@@ " + hunks[0].range == "@@ ";
    assert RenderHunks(hunks) == ["@@ "] + [] + [];
  }

  lemma EmptyHunkForm(f: FileDiff, name: string)
    requires NoBreaks(name) && f.extended == [] && f.names == Some((name, name)) && RenderHunks(f.hunks) == ["@@ "]
    ensures Named(f) && CleanHunks(f) && RenderPlain(f) == ["--- " + name, "+++ " + name, "@@ "]
  {
    CleanMark("--- ", name);
    CleanMark("+++ ", name);
    PiecesOfClean("@@ ");
    PiecesOfOne("@@ ");
    Prefixes("@@ ");
  }

  /** The shortest such texts: two files, no changed line, and one line counted each way. */
  lemma SecondNamesInText(a: string, b: string, lib: Library)
    requires NoBreaks(a) && NoBreaks(b)
    ensures var got := Scan(Text(["--- " + a, "+++ " + a, "@@ "] + ["--- " + b, "+++ " + b, "@@ "]), lib);
      got.added == 1 && got.deleted == 1
  {
    var f, g := EmptyHunkFile(a), EmptyHunkFile(b);
    EmptyHunk(f.hunks);
    EmptyHunk(g.hunks);
    EmptyHunkForm(f, a);
    EmptyHunkForm(g, b);
    SecondNamesAreCounted(f, g, lib);
    PairText(f, g);
    NothingExpected([f, g], lib);
  }

  lemma PairText(f: FileDiff, g: FileDiff)
    ensures RenderPlainFiles([f, g]) == RenderPlain(f) + RenderPlain(g)
  {
    assert [f, g][1..] == [g] && [g][1..] == [];
    assert RenderPlainFiles([g]) == RenderPlain(g) + [];
  }

  lemma NothingExpected(files: seq<FileDiff>, lib: Library)
    requires forall i | 0 <= i < |files| :: AllLines(files[i].hunks) == []
    ensures Expected(files, lib) == NOTHING
  {
    NothingTotal((f: FileDiff) => FileSummary(f, lib), files);
  }
}
