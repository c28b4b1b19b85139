/** The dotted key paths of configuration edits: `parse_key_path` and a printer for it. */
module KeyPath {
  import opened PyText

  datatype PathError = EmptyPath | UnterminatedEscape | EmptySegment | InvalidQuote | UnterminatedQuote
  datatype Result = Ok(segments: seq<string>) | Err(error: PathError)

  /** The state of the loop: rest is `path[index:]`. */
  function ParseFrom(rest: string, segments: seq<string>, segment: string, quoted: bool): Result
    decreases |rest|
  {
    if rest == [] then
      if quoted then Err(UnterminatedQuote)
      else if segment == [] then Err(EmptySegment)
      else Ok(segments + [segment])
    else
      var ch := rest[0];
      if ch == '"' && !quoted && segment == [] then ParseFrom(rest[1..], segments, segment, true)
      else if ch == '"' && quoted then ParseFrom(rest[1..], segments, segment, false)
      else if ch == '\\' && quoted then
        if |rest| == 1 then Err(UnterminatedEscape)
        else ParseFrom(rest[2..], segments, segment + [rest[1]], quoted)
      else if ch == '.' && !quoted then
        if segment == [] then Err(EmptySegment) else ParseFrom(rest[1..], segments + [segment], "", quoted)
      else if ch == '"' then Err(InvalidQuote)
      else ParseFrom(rest[1..], segments, segment + [ch], quoted)
  }

  function Parse(path: string): Result
  {
    if Strip(path) == [] then Err(EmptyPath) else ParseFrom(path, [], "", false)
  }

  /** `parse_key_path` */
  method ParseKeyPath(path: string) returns (r: Result)
    ensures r == Parse(path)
  {
    if Strip(path) == [] {
      return Err(EmptyPath);
    }
    var segments: seq<string> := [];
    var segment: string := "";
    var quoted := false;
    var index := 0;
    while index < |path|
      invariant 0 <= index <= |path|
      invariant ParseFrom(path[index..], segments, segment, quoted) == Parse(path)
      decreases |path| - index
    {
      var ch := path[index];
      ghost var rest := path[index..];
      assert rest[1..] == path[index + 1..];
      if ch == '"' && !quoted && segment == [] {
        quoted := true;
      } else if ch == '"' && quoted {
        quoted := false;
      } else if ch == '\\' && quoted {
        index := index + 1;
        if index >= |path| {
          return Err(UnterminatedEscape);
        }
        assert rest[2..] == path[index + 1..];
        segment := segment + [path[index]];
      } else if ch == '.' && !quoted {
        if segment == [] {
          return Err(EmptySegment);
        }
        segments := segments + [segment];
        segment := "";
      } else if ch == '"' {
        return Err(InvalidQuote);
      } else {
        segment := segment + [ch];
      }
      index := index + 1;
    }
    if quoted {
      return Err(UnterminatedQuote);
    }
    if segment == [] {
      return Err(EmptySegment);
    }
    r := Ok(segments + [segment]);
  }

  // ---------------------------------------------------------------- accepted paths

  predicate ProperSegments(segments: seq<string>)
  {
    segments != [] && forall i | 0 <= i < |segments| :: segments[i] != []
  }

  /** Every accepted path is a non-empty list of non-empty segments. */
  lemma ParsedIsProper(path: string)
    requires Parse(path).Ok?
    ensures ProperSegments(Parse(path).segments)
  {
    ParsedFromIsProper(path, [], "", false);
  }

  lemma {:induction false} ParsedFromIsProper(rest: string, segments: seq<string>, segment: string, quoted: bool)
    requires ParseFrom(rest, segments, segment, quoted).Ok?
    requires forall i | 0 <= i < |segments| :: segments[i] != []
    ensures ProperSegments(ParseFrom(rest, segments, segment, quoted).segments)
    decreases |rest|
  {
    if rest != [] {
      var ch := rest[0];
      if ch == '"' && !quoted && segment == [] {
        ParsedFromIsProper(rest[1..], segments, segment, true);
      } else if ch == '"' && quoted {
        ParsedFromIsProper(rest[1..], segments, segment, false);
      } else if ch == '\\' && quoted {
        ParsedFromIsProper(rest[2..], segments, segment + [rest[1]], quoted);
      } else if ch == '.' && !quoted {
        ParsedFromIsProper(rest[1..], segments + [segment], "", quoted);
      } else {
        ParsedFromIsProper(rest[1..], segments, segment + [ch], quoted);
      }
    }
  }

  // ---------------------------------------------------------------- the printer

  /** A segment that needs no quotes. */
  predicate Plain(s: string)
  {
    forall i | 0 <= i < |s| :: s[i] != '"' && s[i] != '.'
  }

  /** Quotes and backslashes are escaped. */
  function EscapeChar(c: char): string
  {
    if c == '"' || c == '\\' then ['\\', c] else [c]
  }

  function Escape(s: string): string
  {
    if s == [] then [] else EscapeChar(s[0]) + Escape(s[1..])
  }

  /** One segment, quoted when asked for or when it has to be. */
  function PrintSegment(s: string, quote: bool): string
  {
    if quote || !Plain(s) then ['"'] + Escape(s) + ['"'] else s
  }

  /** Any list of segments, each one quoted or bare. */
  function Print(segments: seq<string>, quotes: seq<bool>): string
    requires |segments| == |quotes|
  {
    if segments == [] then []
    else if |segments| == 1 then PrintSegment(segments[0], quotes[0])
    else PrintSegment(segments[0], quotes[0]) + ['.'] + Print(segments[1..], quotes[1..])
  }

  lemma ParseEscapedChar(c: char, tail: string, segments: seq<string>, segment: string)
    ensures ParseFrom(EscapeChar(c) + tail, segments, segment, true) == ParseFrom(tail, segments, segment + [c], true)
  {
    var text := EscapeChar(c) + tail;
    assert text[|EscapeChar(c)|..] == tail;
  }

  /** Inside quotes the parser undoes the escaping. */
  lemma {:induction false} ParseEscaped(s: string, tail: string, segments: seq<string>, segment: string)
    ensures ParseFrom(Escape(s) + tail, segments, segment, true) == ParseFrom(tail, segments, segment + s, true)
    decreases |s|
  {
    if s == [] {
      assert Escape(s) + tail == tail && segment + s == segment;
    } else {
      var after := Escape(s[1..]) + tail;
      assert Escape(s) + tail == EscapeChar(s[0]) + after;
      ParseEscapedChar(s[0], after, segments, segment);
      ParseEscaped(s[1..], tail, segments, segment + [s[0]]);
      assert segment + [s[0]] + s[1..] == segment + s;
    }
  }

  lemma {:induction false} ParsePlain(s: string, tail: string, segments: seq<string>, segment: string)
    requires Plain(s)
    ensures ParseFrom(s + tail, segments, segment, false) == ParseFrom(tail, segments, segment + s, false)
    decreases |s|
  {
    if s == [] {
      assert s + tail == tail && segment + s == segment;
    } else {
      ParsePlain(s[1..], tail, segments, segment + [s[0]]);
      assert segment + [s[0]] + s[1..] == segment + s;
      assert (s + tail)[1..] == s[1..] + tail;
    }
  }

  /** A printed segment is read back, bare or quoted. */
  lemma ParsePrintedSegment(s: string, quote: bool, tail: string, segments: seq<string>)
    ensures ParseFrom(PrintSegment(s, quote) + tail, segments, "", false) == ParseFrom(tail, segments, s, false)
  {
    if quote || !Plain(s) {
      var text := PrintSegment(s, quote) + tail;
      var closing := ['"'] + tail;
      assert text[1..] == Escape(s) + closing;
      ParseEscaped(s, closing, segments, "");
      assert "" + s == s;
      assert closing[1..] == tail;
    } else {
      ParsePlain(s, tail, segments, "");
      assert "" + s == s;
    }
  }

  lemma {:induction false} ParsePrinted(segments: seq<string>, quotes: seq<bool>, done: seq<string>)
    requires ProperSegments(segments) && |quotes| == |segments|
    ensures ParseFrom(Print(segments, quotes), done, "", false) == Ok(done + segments)
    decreases |segments|
  {
    var s := segments[0];
    if |segments| == 1 {
      ParsePrintedSegment(s, quotes[0], [], done);
      assert PrintSegment(s, quotes[0]) + [] == PrintSegment(s, quotes[0]);
      assert segments == [s];
    } else {
      var rest := Print(segments[1..], quotes[1..]);
      var tail := ['.'] + rest;
      ParsePrintedSegment(s, quotes[0], tail, done);
      assert PrintSegment(s, quotes[0]) + ['.'] + rest == PrintSegment(s, quotes[0]) + tail;
      assert tail[1..] == rest;
      ParsePrinted(segments[1..], quotes[1..], done + [s]);
      assert done + [s] + segments[1..] == done + segments;
    }
  }

  /** Parsing inverts printing for every list of non-empty segments and every choice of quotes;
      the one exception is a single bare segment of white space. */
  lemma ParseInvertsPrint(segments: seq<string>, quotes: seq<bool>)
    requires ProperSegments(segments) && |quotes| == |segments|
    ensures Parse(Print(segments, quotes))
         == if |segments| == 1 && !quotes[0] && Blank(segments[0]) then Err(EmptyPath) else Ok(segments)
  {
    ParsePrinted(segments, quotes, []);
    assert [] + segments == segments;
    PrintedBlank(segments, quotes);
    StripEmpty(Print(segments, quotes));
  }

  lemma PrintedBlank(segments: seq<string>, quotes: seq<bool>)
    requires ProperSegments(segments) && |quotes| == |segments|
    ensures Blank(Print(segments, quotes)) <==> |segments| == 1 && !quotes[0] && Blank(segments[0])
  {
    var s, text := segments[0], Print(segments, quotes);
    var first := PrintSegment(s, quotes[0]);
    if |segments| > 1 {
      assert text[|first|] == '.' && !IsSpace('.');
    } else if quotes[0] || !Plain(s) {
      assert text[0] == '"' && !IsSpace('"');
    }
  }

  /** In particular with every segment quoted there is no exception. */
  lemma ParseInvertsQuotedPrint(segments: seq<string>)
    requires ProperSegments(segments)
    ensures Parse(Print(segments, seq(|segments|, i => true))) == Ok(segments)
  {
    ParseInvertsPrint(segments, seq(|segments|, i => true));
  }

  // ---------------------------------------------------------------- refused paths

  /** Segments, each with the dot behind it. */
  function Dotted(segments: seq<string>, quotes: seq<bool>): string
    requires |segments| == |quotes|
  {
    if segments == [] then [] else PrintSegment(segments[0], quotes[0]) + ['.'] + Dotted(segments[1..], quotes[1..])
  }

  lemma {:induction false} ParseDotted(segments: seq<string>, quotes: seq<bool>, tail: string, done: seq<string>)
    requires |segments| == |quotes| && forall i | 0 <= i < |segments| :: segments[i] != []
    ensures ParseFrom(Dotted(segments, quotes) + tail, done, "", false)
      == ParseFrom(tail, done + segments, "", false)
    decreases |segments|
  {
    if segments == [] {
      assert Dotted(segments, quotes) + tail == tail && done + segments == done;
    } else {
      var s, rest := segments[0], Dotted(segments[1..], quotes[1..]) + tail;
      var dot := ['.'] + rest;
      assert Dotted(segments, quotes) + tail == PrintSegment(s, quotes[0]) + dot;
      ParsePrintedSegment(s, quotes[0], dot, done);
      assert dot[1..] == rest;
      ParseDotted(segments[1..], quotes[1..], tail, done + [s]);
      assert done + [s] + segments[1..] == done + segments;
    }
  }

  /** A path with a character that is no space is parsed from its start. */
  lemma NotEmpty(path: string, i: nat)
    requires i < |path| && !IsSpace(path[i])
    ensures Parse(path) == ParseFrom(path, [], "", false)
  {
    StripEmpty(path);
  }

  /** Only blank paths are refused as empty. */
  lemma EmptyIff(path: string)
    ensures Parse(path) == Err(EmptyPath) <==> Blank(path)
  {
    StripEmpty(path);
    NeverEmpty(path, [], "", false);
  }

  lemma {:induction false} NeverEmpty(rest: string, segments: seq<string>, segment: string, quoted: bool)
    ensures ParseFrom(rest, segments, segment, quoted) != Err(EmptyPath)
    decreases |rest|
  {
    if rest != [] {
      var ch := rest[0];
      if ch == '"' && !quoted && segment == [] {
        NeverEmpty(rest[1..], segments, segment, true);
      } else if ch == '"' && quoted {
        NeverEmpty(rest[1..], segments, segment, false);
      } else if ch == '\\' && quoted {
        if |rest| > 1 { NeverEmpty(rest[2..], segments, segment + [rest[1]], quoted); }
      } else if ch == '.' && !quoted {
        if segment != [] { NeverEmpty(rest[1..], segments + [segment], "", quoted); }
      } else if ch != '"' {
        NeverEmpty(rest[1..], segments, segment + [ch], quoted);
      }
    }
  }

  /** Behind any segments an opened quote that is not closed is refused, ... */
  lemma OpenQuote(segments: seq<string>, quotes: seq<bool>, s: string)
    requires |segments| == |quotes| && forall i | 0 <= i < |segments| :: segments[i] != []
    ensures Parse(Dotted(segments, quotes) + (['"'] + Escape(s))) == Err(UnterminatedQuote)
    ensures Parse(Dotted(segments, quotes) + (['"'] + Escape(s) + ['\\'])) == Err(UnterminatedEscape)
  {
    var d := Dotted(segments, quotes);
    QuoteLeftOpen(d, segments, quotes, s, []);
    assert Escape(s) + [] == Escape(s);
    QuoteLeftOpen(d, segments, quotes, s, ['\\']);
    assert ['"'] + (Escape(s) + ['\\']) == ['"'] + Escape(s) + ['\\'];
  }

  lemma QuoteLeftOpen(d: string, segments: seq<string>, quotes: seq<bool>, s: string, tail: string)
    requires |segments| == |quotes| && forall i | 0 <= i < |segments| :: segments[i] != []
    requires d == Dotted(segments, quotes)
    ensures Parse(d + (['"'] + (Escape(s) + tail))) == ParseFrom(tail, segments, s, true)
  {
    var rest := ['"'] + (Escape(s) + tail);
    assert (d + rest)[|d|] == '"';
    NotEmpty(d + rest, |d|);
    ParseDotted(segments, quotes, rest, []);
    assert [] + segments == segments && rest[1..] == Escape(s) + tail;
    ParseEscaped(s, tail, segments, "");
    assert "" + s == s;
  }

  /** ... so is a segment with nothing in it, and a quote inside a bare segment. */
  lemma BadSegment(segments: seq<string>, quotes: seq<bool>, s: string, tail: string)
    requires |segments| == |quotes| && forall i | 0 <= i < |segments| :: segments[i] != []
    ensures segments != [] ==> Parse(Dotted(segments, quotes)) == Err(EmptySegment)
    ensures Parse(Dotted(segments, quotes) + (['.'] + tail)) == Err(EmptySegment)
    ensures Plain(s) && s != [] ==> Parse(Dotted(segments, quotes) + (s + (['"'] + tail))) == Err(InvalidQuote)
  {
    var d := Dotted(segments, quotes);
    assert [] + segments == segments;
    if segments != [] {
      var first := PrintSegment(segments[0], quotes[0]);
      assert d[|first|] == '.';
      NotEmpty(d, |first|);
      ParseDotted(segments, quotes, [], []);
      assert d + [] == d;
    }
    var dot := ['.'] + tail;
    assert (d + dot)[|d|] == '.';
    NotEmpty(d + dot, |d|);
    ParseDotted(segments, quotes, dot, []);
    if Plain(s) && s != [] { QuoteInside(d, segments, quotes, s, tail); }
  }

  lemma QuoteInside(d: string, segments: seq<string>, quotes: seq<bool>, s: string, tail: string)
    requires |segments| == |quotes| && forall i | 0 <= i < |segments| :: segments[i] != []
    requires d == Dotted(segments, quotes) && Plain(s) && s != []
    ensures Parse(d + (s + (['"'] + tail))) == Err(InvalidQuote)
  {
    var quote := ['"'] + tail;
    assert (d + (s + quote))[|d| + |s|] == '"';
    NotEmpty(d + (s + quote), |d| + |s|);
    ParseDotted(segments, quotes, s + quote, []);
    assert [] + segments == segments;
    ParsePlain(s, quote, segments, "");
    assert "" + s == s;
  }
}
