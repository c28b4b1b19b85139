/** The unified-diff scanner of the accepted-lines analytics. */
module DiffScan {
  import opened Wrappers
  import opened PyText

  /** `str.isalnum` on one character and the fingerprint hash, both library code. */
  datatype Library = Library(isAlnum: char -> bool, hash: (string, string) -> string)

  datatype Fingerprint = Fingerprint(pathHash: string, lineHash: string)
  datatype Summary = Summary(added: nat, deleted: nat, fingerprints: seq<Fingerprint>)

  // ---------------------------------------------------------------- text

  /** A character at which `str.splitlines` breaks. */
  predicate IsBreak(c: char)
  {
    var n := c as int;
    0x0a <= n <= 0x0d || 0x1c <= n <= 0x1e || n == 0x85 || n == 0x2028 || n == 0x2029
  }

  function SplitFrom(s: string, line: string): seq<string>
    decreases |s|
  {
    if s == [] then (if line == [] then [] else [line])
    else if |s| >= 2 && s[0] == '\r' && s[1] == '\n' then [line] + SplitFrom(s[2..], [])
    else if IsBreak(s[0]) then [line] + SplitFrom(s[1..], [])
    else SplitFrom(s[1..], line + [s[0]])
  }

  /** `s.splitlines()` */
  function SplitLines(s: string): seq<string>
  {
    SplitFrom(s, [])
  }

  function WordsFrom(s: string, word: string): seq<string>
    decreases |s|
  {
    if s == [] then (if word == [] then [] else [word])
    else if IsSpace(s[0]) then (if word == [] then [] else [word]) + WordsFrom(s[1..], [])
    else WordsFrom(s[1..], word + [s[0]])
  }

  /** `" ".join(words)` */
  function JoinWords(words: seq<string>): string
  {
    if words == [] then [] else if |words| == 1 then words[0] else words[0] + [' '] + JoinWords(words[1..])
  }

  /** `_normalize_diff_path` */
  function NormalizePath(path: string): Option<string>
  {
    var p := Strip(path);
    if p == "/dev/null" then None
    else if StartsWith(p, "a/") || StartsWith(p, "b/") then Some(p[2..])
    else Some(p)
  }

  /** `_normalize_effective_line` */
  function NormalizeLine(line: string, lib: Library): Option<string>
  {
    var normalized := JoinWords(WordsFrom(line, []));
    if |normalized| <= 3 then None
    else if !exists i | 0 <= i < |normalized| :: lib.isAlnum(normalized[i]) || normalized[i] == '_' then None
    else Some(normalized)
  }

  // ---------------------------------------------------------------- the scan

  datatype ScanState = ScanState(path: Option<string>, inHunk: bool, added: nat, deleted: nat,
    fingerprints: seq<Fingerprint>)

  const START: ScanState := ScanState(None, false, 0, 0, [])

  /** The fingerprint of an added line, if the file has a path and the line is effective. */
  function FingerprintOf(path: Option<string>, text: string, lib: Library): seq<Fingerprint>
  {
    if path == None then []
    else match NormalizeLine(text, lib)
      case None => []
      case Some(n) => [Fingerprint(lib.hash("path", path.value), lib.hash("line", n))]
  }

  function ScanLine(st: ScanState, line: string, lib: Library): ScanState
  {
    if StartsWith(line, "diff --git ") then st.(path := None, inHunk := false)
    else if StartsWith(line, "@@ ") then st.(inHunk := true)
    else if !st.inHunk && StartsWith(line, "+++ ") then st.(path := NormalizePath(line[4..]))
    else if !st.inHunk && StartsWith(line, "--- ") then st
    else if StartsWith(line, "+") then
      st.(added := st.added + 1, fingerprints := st.fingerprints + FingerprintOf(st.path, line[1..], lib))
    else if StartsWith(line, "-") then st.(deleted := st.deleted + 1)
    else st
  }

  function ScanLines(st: ScanState, lines: seq<string>, lib: Library): ScanState
    decreases |lines|
  {
    if lines == [] then st else ScanLines(ScanLine(st, lines[0], lib), lines[1..], lib)
  }

  function Scan(text: string, lib: Library): Summary
  {
    var st := ScanLines(START, SplitLines(text), lib);
    Summary(st.added, st.deleted, st.fingerprints)
  }

  /** `accepted_line_fingerprints_from_unified_diff` */
  method ScanDiff(text: string, lib: Library) returns (r: Summary)
    ensures r == Scan(text, lib)
  {
    var currentPath: Option<string> := None;
    var inHunk := false;
    var added: nat, deleted: nat := 0, 0;
    var fingerprints: seq<Fingerprint> := [];
    var lines := SplitLines(text);
    for i := 0 to |lines|
      invariant ScanLines(ScanState(currentPath, inHunk, added, deleted, fingerprints), lines[i..], lib)
        == ScanLines(START, lines, lib)
    {
      var line := lines[i];
      assert lines[i..][1..] == lines[i + 1..];
      ghost var st := ScanState(currentPath, inHunk, added, deleted, fingerprints);
      if StartsWith(line, "diff --git ") {
        currentPath := None;
        inHunk := false;
        continue;
      }
      if StartsWith(line, "@@ ") {
        inHunk := true;
        continue;
      }
      if !inHunk && StartsWith(line, "+++ ") {
        currentPath := NormalizePath(line[4..]);
        continue;
      }
      if !inHunk && StartsWith(line, "--- ") {
        continue;
      }
      if StartsWith(line, "+") {
        added := added + 1;
        assert fingerprints + [] == fingerprints;
        if currentPath != None {
          var normalized := NormalizeLine(line[1..], lib);
          if normalized != None {
            fingerprints := fingerprints + [Fingerprint(lib.hash("path", currentPath.value),
              lib.hash("line", normalized.value))];
          }
        }
        continue;
      }
      if StartsWith(line, "-") {
        deleted := deleted + 1;
      }
    }
    r := Summary(added, deleted, fingerprints);
  }
}
