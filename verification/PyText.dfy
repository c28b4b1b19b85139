/** Python string operations shared by the text-processing code. */
module PyText {
  /** `c.isspace()` */
  predicate IsSpace(c: char)
  {
    var n := c as int;
    || 0x09 <= n <= 0x0d || 0x1c <= n <= 0x20 || n == 0x85 || n == 0xa0 || n == 0x1680
    || 0x2000 <= n <= 0x200a || n == 0x2028 || n == 0x2029 || n == 0x202f || n == 0x205f || n == 0x3000
  }

  function StripLeft(s: string): (r: string)
    ensures |r| <= |s|
  {
    if s != [] && IsSpace(s[0]) then StripLeft(s[1..]) else s
  }

  function StripRight(s: string): (r: string)
    ensures |r| <= |s|
  {
    if s != [] && IsSpace(s[|s| - 1]) then StripRight(s[..|s| - 1]) else s
  }

  /** `s.strip()` */
  function Strip(s: string): (r: string)
    ensures |r| <= |s|
  {
    StripRight(StripLeft(s))
  }

  /** `s.startswith(prefix)` */
  predicate StartsWith(s: string, prefix: string)
  {
    |prefix| <= |s| && s[..|prefix|] == prefix
  }

  predicate Blank(s: string)
  {
    forall i | 0 <= i < |s| :: IsSpace(s[i])
  }

  /** A text with no space at its ends is left alone. */
  lemma StripTrimmed(s: string)
    requires s == [] || (!IsSpace(s[0]) && !IsSpace(s[|s| - 1]))
    ensures Strip(s) == s
  {
  }

  lemma {:induction false} StripLeftPadding(pad: string, s: string)
    requires Blank(pad)
    ensures StripLeft(pad + s) == StripLeft(s)
    decreases |pad|
  {
    if pad == [] {
      assert pad + s == s;
    } else {
      StripLeftPadding(pad[1..], s);
      assert (pad + s)[1..] == pad[1..] + s;
    }
  }

  lemma {:induction false} StripLeftEmpty(s: string)
    ensures StripLeft(s) == [] <==> Blank(s)
  {
    if s != [] && IsSpace(s[0]) {
      StripLeftEmpty(s[1..]);
      if Blank(s[1..]) {
        forall i | 0 <= i < |s| ensures IsSpace(s[i]) {
          if i > 0 { assert s[i] == s[1..][i - 1]; }
        }
      }
    }
  }

  lemma {:induction false} StripRightEmpty(s: string)
    ensures StripRight(s) == [] <==> Blank(s)
    decreases |s|
  {
    if s != [] && IsSpace(s[|s| - 1]) {
      StripRightEmpty(s[..|s| - 1]);
      if Blank(s[..|s| - 1]) {
        forall i | 0 <= i < |s| ensures IsSpace(s[i]) {
          if i < |s| - 1 { assert s[i] == s[..|s| - 1][i]; }
        }
      }
    }
  }

  lemma {:induction false} StripLeftIsSuffix(s: string)
    ensures StripLeft(s) == s[|s| - |StripLeft(s)|..]
    ensures StripLeft(s) != [] ==> !IsSpace(StripLeft(s)[0])
  {
    if s != [] && IsSpace(s[0]) { StripLeftIsSuffix(s[1..]); }
  }

  /** Stripping leaves nothing exactly of blank text. */
  lemma StripEmpty(s: string)
    ensures Strip(s) == [] <==> Blank(s)
  {
    StripLeftEmpty(s);
    var t := StripLeft(s);
    StripRightEmpty(t);
    StripLeftIsSuffix(s);
    if t != [] {
      assert !Blank(t) by { assert !IsSpace(t[0]); }
    }
  }
}
