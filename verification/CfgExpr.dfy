/** Deciding from its text whether a `cfg` predicate can only hold in test builds. */
module CfgExpr {
  import opened PyText

  /** The stripped pieces of `value` between its commas at parenthesis depth zero; `piece` is what the current one has
      so far. */
  function Pieces(value: string, piece: string, depth: int): seq<string>
  {
    if value == [] then [Strip(piece)]
    else if value[0] == '(' then Pieces(value[1..], piece + value[..1], depth + 1)
    else if value[0] == ')' then Pieces(value[1..], piece + value[..1], depth - 1)
    else if value[0] == ',' && depth == 0 then [Strip(piece)] + Pieces(value[1..], [], depth)
    else Pieces(value[1..], piece + value[..1], depth)
  }

  /** `tuple(item for item in arguments if item)` */
  function NonEmpty(items: seq<string>): (r: seq<string>)
    ensures forall a | a in r :: a != [] && a in items
  {
    if items == [] then []
    else (if items[0] == [] then [] else [items[0]]) + NonEmpty(items[1..])
  }

  function Arguments(value: string): (r: seq<string>)
    ensures forall a | a in r :: a != [] && |a| <= |value|
  {
    PiecesAreShort(value, [], 0);
    NonEmpty(Pieces(value, [], 0))
  }

  lemma {:induction false} PiecesAreShort(value: string, piece: string, depth: int)
    ensures forall p | p in Pieces(value, piece, depth) :: |p| <= |piece| + |value|
  {
    if value != [] {
      if value[0] == ',' && depth == 0 {
        PiecesAreShort(value[1..], [], depth);
      } else {
        PiecesAreShort(value[1..], piece + value[..1], depth + Nesting(value[0]));
      }
    }
  }

  function Nesting(c: char): int
  {
    if c == '(' then 1 else if c == ')' then -1 else 0
  }

  lemma ReadOne(value: string, start: nat, index: nat, depth: int)
    requires start <= index < |value|
    ensures Pieces(value[index..], value[start..index], depth) ==
      if value[index] == ',' && depth == 0 then [Strip(value[start..index])] + Pieces(value[index + 1..], [], depth)
      else Pieces(value[index + 1..], value[start..index + 1], depth + Nesting(value[index]))
  {
    var rest := value[index..];
    assert rest[1..] == value[index + 1..];
    assert value[start..index] + rest[..1] == value[start..index + 1];
  }

  method SplitCfgArguments(value: string) returns (items: seq<string>)
    ensures items == Arguments(value)
  {
    var arguments := [];
    var start, depth := 0, 0;
    assert value[0..] == value;
    for index := 0 to |value|
      invariant 0 <= start <= index
      invariant Pieces(value, [], 0) == arguments + Pieces(value[index..], value[start..index], depth)
    {
      ReadOne(value, start, index, depth);
      var character := value[index];
      if character == '(' {
        depth := depth + 1;
      } else if character == ')' {
        depth := depth - 1;
      } else if character == ',' && depth == 0 {
        arguments := arguments + [Strip(value[start..index])];
        start := index + 1;
        assert value[start..index + 1] == [];
      }
    }
    assert value[start..|value|] == value[start..];
    arguments := arguments + [Strip(value[start..])];
    items := NonEmpty(arguments);
  }

  predicate IsCall(expression: string, operator: string)
  {
    StartsWith(expression, operator + "(") && expression[|expression| - 1] == ')'
  }

  function Inside(expression: string, operator: string): (r: string)
    requires IsCall(expression, operator) && operator != []
    ensures |r| < |expression|
  {
    assert expression[|operator|] == '(' by { assert expression[..|operator| + 1][|operator|] == '('; }
    expression[|operator| + 1..|expression| - 1]
  }

  /** `_cfg_requires_test`; the recursion ends because an argument is shorter than the call it stands in. */
  predicate RequiresTest(expression: string)
    decreases |expression|
  {
    var e := Strip(expression);
    if e == "test" then true
    else if IsCall(e, "all") then exists c | c in Arguments(Inside(e, "all")) :: RequiresTest(c)
    else if IsCall(e, "any") then
      var children := Arguments(Inside(e, "any"));
      children != [] && forall c | c in children :: RequiresTest(c)
    else false
  }

  // Predicates as syntax, with the space a writer may put around the arguments.

  datatype Cfg =
    | Atom(text: string)
    | All(args: Args)
    | Any(args: Args)
    | Not(before: string, inner: Cfg, after: string)

  /** `End` after `More` is a trailing comma, `End` alone an empty list. */
  datatype Args =
    | End(pad: string)
    | Last(before: string, head: Cfg, after: string)
    | More(before: string, head: Cfg, after: string, tail: Args)

  function Call(name: string, inside: string): string
  {
    name + "(" + inside + ")"
  }

  function Print(e: Cfg): string
  {
    match e
    case Atom(text) => text
    case All(args) => Call("all", PrintArgs(args))
    case Any(args) => Call("any", PrintArgs(args))
    case Not(before, inner, after) => Call("not", before + Print(inner) + after)
  }

  function PrintArgs(a: Args): string
  {
    match a
    case End(pad) => pad
    case Last(before, head, after) => before + Print(head) + after
    case More(before, head, after, tail) => (before + Print(head) + after) + ("," + PrintArgs(tail))
  }

  /** No comma and no parenthesis. */
  predicate Plain(s: string)
  {
    forall i | 0 <= i < |s| :: s[i] != ',' && s[i] != '(' && s[i] != ')'
  }

  predicate Trimmed(s: string)
  {
    s != [] && !IsSpace(s[0]) && !IsSpace(s[|s| - 1])
  }

  predicate WellFormed(e: Cfg)
  {
    match e
    case Atom(text) => Trimmed(text) && Plain(text)
    case All(args) => WellFormedArgs(args)
    case Any(args) => WellFormedArgs(args)
    case Not(before, inner, after) => Blank(before) && WellFormed(inner) && Blank(after)
  }

  predicate WellFormedArgs(a: Args)
  {
    match a
    case End(pad) => Blank(pad)
    case Last(before, head, after) => Blank(before) && WellFormed(head) && Blank(after)
    case More(before, head, after, tail) => Blank(before) && WellFormed(head) && Blank(after) && WellFormedArgs(tail)
  }

  function Children(a: Args): seq<Cfg>
  {
    match a
    case End(_) => []
    case Last(_, head, _) => [head]
    case More(_, head, _, tail) => [head] + Children(tail)
  }

  function PrintEach(es: seq<Cfg>): seq<string>
  {
    if es == [] then [] else [Print(es[0])] + PrintEach(es[1..])
  }

  lemma {:induction false} PrintTrimmed(e: Cfg)
    requires WellFormed(e)
    ensures Trimmed(Print(e))
  {
  }

  /** Starting at this depth, a scan takes the whole of `text` into the current piece. */
  ghost predicate Whole(text: string, depth: int)
  {
    forall rest, piece :: TakenBefore(text, depth, rest, piece)
  }

  predicate TakenBefore(text: string, depth: int, rest: string, piece: string)
  {
    Pieces(text + rest, piece, depth) == Pieces(rest, piece + text, depth)
  }

  lemma {:induction false} PlainIsTaken(s: string, depth: int, rest: string, piece: string)
    requires Plain(s)
    ensures TakenBefore(s, depth, rest, piece)
  {
    if s == [] {
      assert s + rest == rest && piece + s == piece;
    } else {
      PlainIsTaken(s[1..], depth, rest, piece + s[..1]);
      assert (s + rest)[1..] == s[1..] + rest && (s + rest)[..1] == s[..1];
      assert piece + s[..1] + s[1..] == piece + s;
    }
  }

  lemma PlainIsWhole(s: string, depth: int)
    requires Plain(s)
    ensures Whole(s, depth)
  {
    forall rest, piece ensures TakenBefore(s, depth, rest, piece) {
      PlainIsTaken(s, depth, rest, piece);
    }
  }

  lemma TakenInTurn(a: string, b: string, depth: int, rest: string, piece: string)
    requires TakenBefore(a, depth, b + rest, piece) && TakenBefore(b, depth, rest, piece + a)
    ensures TakenBefore(a + b, depth, rest, piece)
  {
    assert (a + b) + rest == a + (b + rest);
    assert (piece + a) + b == piece + (a + b);
  }

  lemma JoinWhole(a: string, b: string, depth: int)
    requires Whole(a, depth) && Whole(b, depth)
    ensures Whole(a + b, depth)
  {
    forall rest, piece ensures TakenBefore(a + b, depth, rest, piece) {
      TakenInTurn(a, b, depth, rest, piece);
    }
  }

  lemma ReadFirst(c: string, rest: string)
    requires |c| == 1
    ensures (c + rest)[0] == c[0] && (c + rest)[1..] == rest && (c + rest)[..1] == c
  {
  }

  lemma Open(rest: string, piece: string, depth: int)
    ensures Pieces("(" + rest, piece, depth) == Pieces(rest, piece + "(", depth + 1)
  {
    ReadFirst("(", rest);
  }

  lemma Close(rest: string, piece: string, depth: int)
    ensures Pieces(")" + rest, piece, depth) == Pieces(rest, piece + ")", depth - 1)
  {
    ReadFirst(")", rest);
  }

  lemma ParenthesesAreTaken(inside: string, depth: int, rest: string, piece: string)
    requires TakenBefore(inside, depth + 1, ")" + rest, piece + "(")
    ensures TakenBefore("(" + inside + ")", depth, rest, piece)
  {
    Open(inside + (")" + rest), piece, depth);
    Close(rest, piece + "(" + inside, depth + 1);
    assert "(" + inside + ")" + rest == "(" + (inside + (")" + rest));
    assert piece + "(" + inside + ")" == piece + ("(" + inside + ")");
  }

  lemma ParenthesesAreWhole(inside: string, depth: int)
    requires Whole(inside, depth + 1)
    ensures Whole("(" + inside + ")", depth)
  {
    forall rest, piece ensures TakenBefore("(" + inside + ")", depth, rest, piece) {
      assert TakenBefore(inside, depth + 1, ")" + rest, piece + "(");
      ParenthesesAreTaken(inside, depth, rest, piece);
    }
  }

  lemma InnerCommaIsWhole(depth: int)
    requires depth >= 1
    ensures Whole(",", depth)
  {
    forall rest, piece ensures TakenBefore(",", depth, rest, piece) {
      ReadFirst(",", rest);
    }
  }

  predicate Operator(name: string)
  {
    name == "all" || name == "any" || name == "not"
  }

  lemma OperatorIsPlain(name: string)
    requires Operator(name)
    ensures Plain(name)
  {
  }

  lemma CallIsWhole(name: string, inside: string, depth: int)
    requires Operator(name) && Whole(inside, depth + 1)
    ensures Whole(Call(name, inside), depth)
  {
    OperatorIsPlain(name);
    PlainIsWhole(name, depth);
    ParenthesesAreWhole(inside, depth);
    JoinWhole(name, "(" + inside + ")", depth);
    assert Call(name, inside) == name + ("(" + inside + ")");
  }

  lemma PaddedIsWhole(before: string, text: string, after: string, depth: int)
    requires Blank(before) && Blank(after) && Whole(text, depth)
    ensures Whole(before + text + after, depth)
  {
    PlainIsWhole(before, depth);
    PlainIsWhole(after, depth);
    JoinWhole(before, text, depth);
    JoinWhole(before + text, after, depth);
  }

  lemma SameIsWhole(s: string, t: string, depth: int)
    requires s == t && Whole(t, depth)
    ensures Whole(s, depth)
  {
  }

  /** No comma inside a printed predicate separates arguments. */
  lemma {:induction false} PrintedIsWhole(e: Cfg, depth: int)
    requires WellFormed(e) && depth >= 0
    ensures Whole(Print(e), depth)
    decreases e, 1
  {
    if e.Atom? {
      PlainIsWhole(e.text, depth);
      SameIsWhole(Print(e), e.text, depth);
    } else {
      InsideIsWhole(e, depth + 1);
      CallIsWhole(OperatorOf(e), InsideOf(e), depth);
      SameIsWhole(Print(e), Call(OperatorOf(e), InsideOf(e)), depth);
    }
  }

  function OperatorOf(e: Cfg): string
    requires !e.Atom?
  {
    if e.All? then "all" else if e.Any? then "any" else "not"
  }

  function InsideOf(e: Cfg): string
    requires !e.Atom?
  {
    if e.Not? then e.before + Print(e.inner) + e.after else PrintArgs(e.args)
  }

  lemma {:induction false} InsideIsWhole(e: Cfg, depth: int)
    requires WellFormed(e) && !e.Atom? && depth >= 1
    ensures Whole(InsideOf(e), depth)
    decreases e, 0
  {
    if e.Not? {
      PrintedIsWhole(e.inner, depth);
      PaddedIsWhole(e.before, Print(e.inner), e.after, depth);
    } else {
      ArgsAreWhole(e.args, depth);
    }
  }

  lemma {:induction false} ArgsAreWhole(a: Args, depth: int)
    requires WellFormedArgs(a) && depth >= 1
    ensures Whole(PrintArgs(a), depth)
    decreases a, 0
  {
    match a
    case End(pad) => PlainIsWhole(pad, depth);
    case Last(before, head, after) =>
      PrintedIsWhole(head, depth);
      PaddedIsWhole(before, Print(head), after, depth);
    case More(before, head, after, tail) =>
      PrintedIsWhole(head, depth);
      PaddedIsWhole(before, Print(head), after, depth);
      ArgsAreWhole(tail, depth);
      InnerCommaIsWhole(depth);
      JoinWhole(",", PrintArgs(tail), depth);
      JoinWhole(before + Print(head) + after, "," + PrintArgs(tail), depth);
  }

  lemma {:induction false} StripRightPadding(s: string, pad: string)
    requires Blank(pad) && Trimmed(s)
    ensures StripRight(s + pad) == s
    decreases |pad|
  {
    if pad == [] {
      assert s + pad == s;
    } else {
      var t := s + pad;
      assert t[|t| - 1] == pad[|pad| - 1];
      assert t[..|t| - 1] == s + pad[..|pad| - 1];
      StripRightPadding(s, pad[..|pad| - 1]);
    }
  }

  lemma StripPadded(before: string, s: string, after: string)
    requires Blank(before) && Blank(after) && Trimmed(s)
    ensures Strip(before + s + after) == s
  {
    StripLeftPadding(before, s + after);
    assert before + s + after == before + (s + after);
    assert (s + after)[0] == s[0];
    StripRightPadding(s, after);
  }

  lemma LastPiece(text: string)
    requires Whole(text, 0)
    ensures Pieces(text, [], 0) == [Strip(text)]
  {
    assert TakenBefore(text, 0, [], []);
    assert text + [] == text && [] + text == text;
  }

  lemma PieceBeforeComma(text: string, rest: string)
    requires Whole(text, 0)
    ensures Pieces(text + ("," + rest), [], 0) == [Strip(text)] + Pieces(rest, [], 0)
  {
    assert TakenBefore(text, 0, "," + rest, []);
    assert [] + text == text;
    ReadFirst(",", rest);
  }

  lemma BlankPiece(pad: string)
    requires Blank(pad)
    ensures NonEmpty(Pieces(pad, [], 0)) == []
  {
    PlainIsWhole(pad, 0);
    LastPiece(pad);
    StripEmpty(pad);
  }

  lemma KeepFirst(item: string, pieces: seq<string>)
    requires item != []
    ensures NonEmpty([item] + pieces) == [item] + NonEmpty(pieces)
  {
    assert ([item] + pieces)[1..] == pieces;
  }

  /** The text of one argument, up to the end or to a comma, is one item. */
  lemma FirstArgument(before: string, head: Cfg, after: string, rest: string)
    requires Blank(before) && WellFormed(head) && Blank(after)
    ensures var text := before + Print(head) + after;
      && Arguments(text) == [Print(head)]
      && Arguments(text + ("," + rest)) == [Print(head)] + Arguments(rest)
  {
    var text := before + Print(head) + after;
    PrintedIsWhole(head, 0);
    PaddedIsWhole(before, Print(head), after, 0);
    PrintTrimmed(head);
    StripPadded(before, Print(head), after);
    LastPiece(text);
    PieceBeforeComma(text, rest);
    KeepFirst(Print(head), []);
    assert [Print(head)] + [] == [Print(head)];
    KeepFirst(Print(head), Pieces(rest, [], 0));
  }

  lemma PrintFirst(head: Cfg, rest: seq<Cfg>)
    ensures PrintEach([head] + rest) == [Print(head)] + PrintEach(rest)
  {
    assert ([head] + rest)[1..] == rest;
  }

  /** Splitting the printed arguments gives back exactly the printed children, in order. */
  lemma {:induction false} SplitRecoversChildren(a: Args)
    requires WellFormedArgs(a)
    ensures Arguments(PrintArgs(a)) == PrintEach(Children(a))
    decreases a
  {
    match a
    case End(pad) => BlankPiece(pad);
    case Last(before, head, after) => FirstArgument(before, head, after, []);
    case More(before, head, after, tail) =>
      FirstArgument(before, head, after, PrintArgs(tail));
      PrintFirst(head, Children(tail));
      SplitRecoversChildren(tail);
  }

  // What the recursion decides, on the syntax.

  predicate Requires(e: Cfg)
  {
    match e
    case Atom(text) => text == "test"
    case All(args) => SomeRequires(args)
    case Any(args) => !args.End? && EachRequires(args)
    case Not(_, _, _) => false
  }

  predicate SomeRequires(a: Args)
  {
    match a
    case End(_) => false
    case Last(_, head, _) => Requires(head)
    case More(_, head, _, tail) => Requires(head) || SomeRequires(tail)
  }

  predicate EachRequires(a: Args)
  {
    match a
    case End(_) => true
    case Last(_, head, _) => Requires(head)
    case More(_, head, _, tail) => Requires(head) && EachRequires(tail)
  }

  lemma CallText(name: string, inside: string)
    requires name != [] && Trimmed(name)
    ensures var s := Call(name, inside);
      Trimmed(s) && IsCall(s, name) && Inside(s, name) == inside
  {
  }

  lemma OtherCall(s: string, name: string, other: string)
    requires |name| == |other| && StartsWith(s, name + "(") && IsCall(s, other)
    ensures name == other
  {
    assert s[..|name| + 1] == name + "(" == other + "(";
    assert (name + "(")[..|name|] == name && (other + "(")[..|name|] == other;
  }

  lemma AtomIsNoCall(text: string, name: string)
    requires Trimmed(text) && Plain(text)
    ensures !IsCall(text, name)
  {
  }

  lemma {:induction false} EachInArgs(a: Args)
    requires WellFormedArgs(a)
    requires forall c | c in Children(a) :: RequiresTest(Print(c)) == Requires(c)
    ensures (exists s | s in PrintEach(Children(a)) :: RequiresTest(s)) == SomeRequires(a)
    ensures (forall s | s in PrintEach(Children(a)) :: RequiresTest(s)) == EachRequires(a)
    ensures (PrintEach(Children(a)) == []) == a.End?
    decreases a
  {
    match a
    case End(_) =>
    case Last(_, head, _) =>
      assert PrintEach(Children(a)) == [Print(head)];
      assert head in Children(a) && Print(head) in PrintEach(Children(a));
    case More(_, head, _, tail) =>
      assert Children(a)[1..] == Children(tail);
      assert PrintEach(Children(a)) == [Print(head)] + PrintEach(Children(tail));
      assert head in Children(a) && Print(head) in PrintEach(Children(a));
      assert forall c | c in Children(tail) :: c in Children(a);
      EachInArgs(tail);
  }

  lemma {:induction false} ArgsDecide(a: Args)
    requires WellFormedArgs(a)
    ensures forall c | c in Children(a) :: WellFormed(c) && RequiresTest(Print(c)) == Requires(c)
    decreases a
  {
    match a
    case End(_) =>
    case Last(_, head, _) =>
      TrimmedTextDecides(head);
    case More(_, head, _, tail) =>
      TrimmedTextDecides(head);
      ArgsDecide(tail);
  }

  lemma CallIsNoTest(name: string, inside: string)
    requires |name| == 3
    ensures Call(name, inside) != "test"
  {
    assert (Call(name, inside))[3] == '(';
  }

  /** The recursion on the text of a call of `all` or `any`. */
  lemma CallDecides(s: string, name: string, a: Args)
    requires name == "all" || name == "any"
    requires WellFormedArgs(a) && s == Call(name, PrintArgs(a))
    requires forall c | c in Children(a) :: RequiresTest(Print(c)) == Requires(c)
    ensures RequiresTest(s) == if name == "all" then SomeRequires(a) else !a.End? && EachRequires(a)
  {
    CallText(name, PrintArgs(a));
    StripTrimmed(s);
    CallIsNoTest(name, PrintArgs(a));
    if name == "any" && IsCall(s, "all") { OtherCall(s, "any", "all"); }
    EachInArgs(a);
    SplitRecoversChildren(a);
  }

  lemma NotIsRefused(inside: string)
    ensures !RequiresTest(Call("not", inside))
  {
    var s := Call("not", inside);
    CallText("not", inside);
    StripTrimmed(s);
    CallIsNoTest("not", inside);
    if IsCall(s, "all") { OtherCall(s, "not", "all"); }
    if IsCall(s, "any") { OtherCall(s, "not", "any"); }
  }

  lemma {:induction false} TrimmedTextDecides(e: Cfg)
    requires WellFormed(e)
    ensures RequiresTest(Print(e)) == Requires(e)
    decreases e
  {
    match e
    case Atom(text) =>
      StripTrimmed(text);
      AtomIsNoCall(text, "all");
      AtomIsNoCall(text, "any");
    case All(args) =>
      ArgsDecide(args);
      CallDecides(Print(e), "all", args);
    case Any(args) =>
      ArgsDecide(args);
      CallDecides(Print(e), "any", args);
    case Not(before, inner, after) =>
      NotIsRefused(before + Print(inner) + after);
  }

  /** On the text of any predicate, with space around it, the string recursion decides what the syntax says. */
  lemma TextDecides(e: Cfg, before: string, after: string)
    requires WellFormed(e) && Blank(before) && Blank(after)
    ensures RequiresTest(before + Print(e) + after) == Requires(e)
  {
    PrintTrimmed(e);
    StripPadded(before, Print(e), after);
    StripTrimmed(Print(e));
    TrimmedTextDecides(e);
  }

  // What predicates mean.

  /** An environment says which atoms hold. */
  predicate Holds(e: Cfg, env: string -> bool)
  {
    match e
    case Atom(text) => env(text)
    case All(args) => AllHold(args, env)
    case Any(args) => SomeHold(args, env)
    case Not(_, inner, _) => !Holds(inner, env)
  }

  predicate AllHold(a: Args, env: string -> bool)
  {
    match a
    case End(_) => true
    case Last(_, head, _) => Holds(head, env)
    case More(_, head, _, tail) => Holds(head, env) && AllHold(tail, env)
  }

  predicate SomeHold(a: Args, env: string -> bool)
  {
    match a
    case End(_) => false
    case Last(_, head, _) => Holds(head, env)
    case More(_, head, _, tail) => Holds(head, env) || SomeHold(tail, env)
  }

  lemma {:induction false} RequiresSound(e: Cfg, env: string -> bool)
    requires Requires(e) && !env("test")
    ensures !Holds(e, env)
  {
    match e
    case Atom(_) =>
    case All(args) => SomeRequiresSound(args, env);
    case Any(args) => EachRequiresSound(args, env);
    case Not(_, _, _) =>
  }

  lemma {:induction false} SomeRequiresSound(a: Args, env: string -> bool)
    requires SomeRequires(a) && !env("test")
    ensures !AllHold(a, env)
  {
    if !a.End? && Requires(a.head) {
      RequiresSound(a.head, env);
    } else if a.More? {
      SomeRequiresSound(a.tail, env);
    }
  }

  lemma {:induction false} EachRequiresSound(a: Args, env: string -> bool)
    requires EachRequires(a) && !env("test")
    ensures !SomeHold(a, env)
  {
    if !a.End? { RequiresSound(a.head, env); }
    if a.More? { EachRequiresSound(a.tail, env); }
  }

  /** A predicate whose text is accepted holds in no environment without `test`. */
  lemma AcceptedNeedsTest(e: Cfg, before: string, after: string, env: string -> bool)
    requires WellFormed(e) && Blank(before) && Blank(after)
    requires RequiresTest(before + Print(e) + after) && !env("test")
    ensures !Holds(e, env)
  {
    TextDecides(e, before, after);
    RequiresSound(e, env);
  }

  /** No negation and no empty `any()`. */
  predicate Monotone(e: Cfg)
  {
    match e
    case Atom(_) => true
    case All(args) => MonotoneArgs(args)
    case Any(args) => !args.End? && MonotoneArgs(args)
    case Not(_, _, _) => false
  }

  predicate MonotoneArgs(a: Args)
  {
    match a
    case End(_) => true
    case Last(_, head, _) => Monotone(head)
    case More(_, head, _, tail) => Monotone(head) && MonotoneArgs(tail)
  }

  function AllButTest(): string -> bool
  {
    text => text != "test"
  }

  lemma {:induction false} MonotoneComplete(e: Cfg)
    requires Monotone(e)
    ensures Requires(e) == !Holds(e, AllButTest())
  {
    match e
    case Atom(_) =>
    case All(args) => MonotoneArgsComplete(args);
    case Any(args) => MonotoneArgsComplete(args);
    case Not(_, _, _) =>
  }

  lemma {:induction false} MonotoneArgsComplete(a: Args)
    requires MonotoneArgs(a)
    ensures SomeRequires(a) == !AllHold(a, AllButTest())
    ensures EachRequires(a) == !SomeHold(a, AllButTest())
  {
    if !a.End? { MonotoneComplete(a.head); }
    if a.More? { MonotoneArgsComplete(a.tail); }
  }

  /** Without negation and empty `any()`, the accepted texts are exactly those that cannot hold without `test`. */
  lemma AcceptedIffNeedsTest(e: Cfg, before: string, after: string)
    requires WellFormed(e) && Monotone(e) && Blank(before) && Blank(after)
    ensures RequiresTest(before + Print(e) + after) <==> forall env: string -> bool | !env("test") :: !Holds(e, env)
  {
    TextDecides(e, before, after);
    MonotoneComplete(e);
    assert !AllButTest()("test");
    forall env: string -> bool | Requires(e) && !env("test") ensures !Holds(e, env) {
      RequiresSound(e, env);
    }
  }

  /** With them the test is only sufficient: an empty `any` never holds and is refused ... */
  lemma EmptyAnyIsRefused(pad: string, env: string -> bool)
    requires Blank(pad)
    ensures !Holds(Any(End(pad)), env) && !RequiresTest(Print(Any(End(pad))))
  {
    TrimmedTextDecides(Any(End(pad)));
  }

  /** ... and so is a double negation, even of a predicate that needs `test`. */
  lemma DoubleNegationIsRefused(e: Cfg, env: string -> bool)
    requires WellFormed(e) && Requires(e) && !env("test")
    ensures var twice := Not([], Not([], e, []), []); !Holds(twice, env) && !RequiresTest(Print(twice))
  {
    var once := Not([], e, []);
    RequiresSound(e, env);
    TrimmedTextDecides(Not([], once, []));
  }
}
