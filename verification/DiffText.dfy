/** What the scanner makes of names and lines: the path of a name, and which added lines are effective. */
module DiffText {
  import opened Wrappers
  import opened PyText
  import opened DiffScan

  // ---------------------------------------------------------------- paths

  predicate Trimmed(s: string)
  {
    s != [] ==> !IsSpace(s[0]) && !IsSpace(s[|s| - 1])
  }

  lemma {:induction false} StripRightPadding(s: string, pad: string)
    requires Blank(pad)
    ensures StripRight(s + pad) == StripRight(s)
    decreases |pad|
  {
    if pad == [] {
      assert s + pad == s;
    } else {
      assert (s + pad)[..|s + pad| - 1] == s + pad[..|pad| - 1];
      StripRightPadding(s, pad[..|pad| - 1]);
    }
  }

  lemma Stripped(pre: string, s: string, post: string)
    requires Blank(pre) && Blank(post) && Trimmed(s)
    ensures Strip(pre + s + post) == s
  {
    assert pre + s + post == pre + (s + post);
    StripLeftPadding(pre, s + post);
    if s == [] {
      assert s + post == post;
      StripEmpty(post);
    } else {
      assert StripLeft(s + post) == s + post;
      StripRightPadding(s, post);
    }
  }

  /** A name is read without the space around it; the null device is no path, and a leading `a/` or `b/` is dropped. */
  lemma PathIs(pre: string, name: string, post: string)
    requires Blank(pre) && Blank(post) && Trimmed(name)
    ensures NormalizePath(pre + name + post) ==
      if name == "/dev/null" then None
      else if |name| >= 2 && (name[0] == 'a' || name[0] == 'b') && name[1] == '/' then Some(name[2..])
      else Some(name)
  {
    Stripped(pre, name, post);
    if |name| >= 2 { assert name[..2] == [name[0], name[1]]; }
  }

  // ---------------------------------------------------------------- lines

  /** A word of a line and the space behind it. */
  datatype Spaced = Spaced(word: string, gap: string)

  predicate IsWord(w: string)
  {
    w != [] && forall i | 0 <= i < |w| :: !IsSpace(w[i])
  }

  /** Words with space between any two of them. */
  predicate Proper(ws: seq<Spaced>)
  {
    && (forall w | w in ws :: IsWord(w.word) && Blank(w.gap))
    && forall i | 0 <= i < |ws| - 1 :: ws[i].gap != []
  }

  function Line(ws: seq<Spaced>): string
  {
    if ws == [] then [] else ws[0].word + ws[0].gap + Line(ws[1..])
  }

  /** The words with a single space between them. */
  function Single(ws: seq<Spaced>): string
  {
    if ws == [] then [] else if |ws| == 1 then ws[0].word else ws[0].word + " " + Single(ws[1..])
  }

  function Words(ws: seq<Spaced>): seq<string>
  {
    if ws == [] then [] else [ws[0].word] + Words(ws[1..])
  }

  lemma {:induction false} SkipGap(gap: string, rest: string)
    requires Blank(gap)
    ensures WordsFrom(gap + rest, []) == WordsFrom(rest, [])
    decreases |gap|
  {
    if gap == [] {
      assert gap + rest == rest;
    } else {
      assert (gap + rest)[1..] == gap[1..] + rest;
      SkipGap(gap[1..], rest);
    }
  }

  lemma {:induction false} ReadWord(w: string, rest: string, cur: string)
    requires forall i | 0 <= i < |w| :: !IsSpace(w[i])
    ensures WordsFrom(w + rest, cur) == WordsFrom(rest, cur + w)
    decreases |w|
  {
    if w == [] {
      assert w + rest == rest && cur + w == cur;
    } else {
      assert (w + rest)[1..] == w[1..] + rest;
      ReadWord(w[1..], rest, cur + [w[0]]);
      assert cur + [w[0]] + w[1..] == cur + w;
    }
  }

  lemma EndWord(word: string, gap: string, rest: string)
    requires word != [] && Blank(gap) && (gap != [] || rest == [])
    ensures WordsFrom(gap + rest, word) == [word] + WordsFrom(rest, [])
  {
    if gap == [] {
      assert gap + rest == [];
    } else {
      assert (gap + rest)[1..] == gap[1..] + rest;
      SkipGap(gap[1..], rest);
    }
  }

  lemma {:induction false} WordsOfLine(ws: seq<Spaced>)
    requires Proper(ws)
    ensures WordsFrom(Line(ws), []) == Words(ws)
    decreases |ws|
  {
    if ws != [] {
      var w, rest := ws[0], ws[1..];
      assert w in ws;
      assert Proper(rest) by {
        forall x | x in rest ensures x in ws {}
      }
      assert Line(ws) == w.word + (w.gap + Line(rest));
      ReadWord(w.word, w.gap + Line(rest), []);
      assert [] + w.word == w.word;
      EndWord(w.word, w.gap, Line(rest));
      WordsOfLine(rest);
    }
  }

  lemma {:induction false} JoinIsSingle(ws: seq<Spaced>)
    ensures JoinWords(Words(ws)) == Single(ws)
    decreases |ws|
  {
    if |ws| > 1 {
      JoinIsSingle(ws[1..]);
      assert Words(ws)[1..] == Words(ws[1..]);
      assert |Words(ws[1..])| > 0;
    }
  }

  /** An added line is effective if its words, with single spaces, are longer than three characters and one of these is
      alphanumeric or an underscore; it is then fingerprinted in this form, however it was spaced. */
  lemma EffectiveIff(lead: string, ws: seq<Spaced>, lib: Library)
    requires Blank(lead) && Proper(ws)
    ensures var n := Single(ws);
      NormalizeLine(lead + Line(ws), lib) ==
        if |n| > 3 && exists i | 0 <= i < |n| :: lib.isAlnum(n[i]) || n[i] == '_' then Some(n) else None
  {
    SkipGap(lead, Line(ws));
    WordsOfLine(ws);
    JoinIsSingle(ws);
  }

  lemma ProperCons(w: Spaced, ws: seq<Spaced>)
    requires IsWord(w.word) && Blank(w.gap) && (w.gap != [] || ws == []) && Proper(ws)
    ensures Proper([w] + ws) && Line([w] + ws) == w.word + w.gap + Line(ws)
  {
    assert ([w] + ws)[1..] == ws;
  }

  lemma ProperTail(ws: seq<Spaced>)
    requires Proper(ws) && ws != []
    ensures IsWord(ws[0].word) && Blank(ws[0].gap) && (ws[0].gap != [] || ws[1..] == []) && Proper(ws[1..])
  {
    assert ws[0] in ws;
    forall x | x in ws[1..] ensures x in ws {}
  }

  lemma Reassociate(c: string, lead: string, line: string)
    ensures (c + lead) + line == c + (lead + line)
  {
  }

  /** A word of one character before a gap. */
  lemma NewWord(c: char, lead: string, ws: seq<Spaced>) returns (v: seq<Spaced>)
    requires !IsSpace(c) && Blank(lead) && Proper(ws) && (lead != [] || ws == [])
    ensures Proper(v) && Line(v) == [c] + (lead + Line(ws))
  {
    v := [Spaced([c], lead)] + ws;
    ProperCons(Spaced([c], lead), ws);
    Reassociate([c], lead, Line(ws));
  }

  /** A character before the first word. */
  lemma LongerWord(c: char, ws: seq<Spaced>) returns (v: seq<Spaced>)
    requires !IsSpace(c) && Proper(ws) && ws != []
    ensures Proper(v) && Line(v) == [c] + Line(ws)
  {
    ProperTail(ws);
    var w, g, rest := ws[0].word, ws[0].gap, Line(ws[1..]);
    v := [Spaced([c] + w, g)] + ws[1..];
    ProperCons(Spaced([c] + w, g), ws[1..]);
    Reassociate([c], w, g);
    Reassociate([c], w + g, rest);
  }

  /** Every line has this form. */
  lemma {:induction false} EveryLine(line: string) returns (lead: string, ws: seq<Spaced>)
    ensures Blank(lead) && Proper(ws) && line == lead + Line(ws)
  {
    if line == [] {
      lead, ws := [], [];
    } else {
      var l, v := EveryLine(line[1..]);
      assert line == [line[0]] + (l + Line(v));
      if IsSpace(line[0]) {
        lead, ws := [line[0]] + l, v;
        Reassociate([line[0]], l, Line(v));
      } else {
        lead := [];
        if l != [] || v == [] {
          ws := NewWord(line[0], l, v);
        } else {
          assert l + Line(v) == Line(v);
          ws := LongerWord(line[0], v);
        }
        assert lead + Line(ws) == Line(ws);
      }
    }
  }

  // ---------------------------------------------------------------- breaks

  /** The characters that end a line. */
  const BREAKS: set<int> := {0x0a, 0x0b, 0x0c, 0x0d, 0x1c, 0x1d, 0x1e, 0x85, 0x2028, 0x2029}

  predicate Unbroken(s: string)
  {
    forall i | 0 <= i < |s| :: s[i] as int !in BREAKS
  }

  lemma {:induction false} ReadUnbroken(a: string, cur: string, rest: string)
    requires Unbroken(a)
    ensures SplitFrom(a + rest, cur) == SplitFrom(rest, cur + a)
    decreases |a|
  {
    if a == [] {
      assert a + rest == rest && cur + a == cur;
    } else {
      assert a[0] as int !in BREAKS;
      assert (a + rest)[1..] == a[1..] + rest;
      ReadUnbroken(a[1..], cur + [a[0]], rest);
      assert cur + [a[0]] + a[1..] == cur + a;
    }
  }

  /** A line ends at each of these characters, at a carriage return with a newline behind it only once; what is left at
      the end is a line if it is not empty. */
  lemma SplitsAt(line: string, c: char, rest: string)
    requires Unbroken(line)
    ensures c as int in BREAKS && !(c == '\r' && rest != [] && rest[0] == '\n') ==>
      SplitLines(line + [c] + rest) == [line] + SplitLines(rest)
    ensures SplitLines(line + ['\r', '\n'] + rest) == [line] + SplitLines(rest)
    ensures SplitLines(line) == if line == [] then [] else [line]
  {
    assert line + [c] + rest == line + ([c] + rest) && [] + line == line;
    ReadUnbroken(line, [], [c] + rest);
    assert ([c] + rest)[1..] == rest;
    var s := ['\r', '\n'] + rest;
    assert line + ['\r', '\n'] + rest == line + s && s[2..] == rest;
    ReadUnbroken(line, [], s);
    assert line + [] == line;
    ReadUnbroken(line, [], []);
  }
}
