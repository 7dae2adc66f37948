/**
 The language itself: a text compiles exactly when it is some way of writing an expression
 within the limits. Nothing but written expressions is accepted.
 */
module BytebeatLanguage {
  import opened Common
  import opened BytebeatProgram
  import opened BytebeatGrammar
  import opened BytebeatSyntax
  import opened BytebeatRoundTrip

  /** What strtod scans once it scans whatever follows, unless that could prolong it; C's does. */
  ghost predicate Steady(strtod: Strtod) {
    forall s, r :: 0 < |s| == strtod(s + r) && Base(s) == 0 && (IsDigit(s[0]) || s[0] == '.') ==> Scanned(s, strtod)
  }

  /** x was read off the front of `text`, then blanks, leaving `rest`; it is tight enough for the level. */
  ghost predicate Read(x: Syntax, gap: string, text: string, rest: string, level: nat, strtod: Strtod) {
    text == Text(x) + (gap + rest) && Blank(gap) && WellWritten(x, strtod) && Level(x) >= level
  }

  // ------------------------------------------------------------------ tokens

  lemma {:induction false} SpaceSplits(s: string) returns (blank: string)
    ensures Blank(blank) && s == blank + SkipSpace(s)
  {
    if s != "" && IsSpace(s[0]) {
      BlanksAreSpaces(s[0]);
      var tail := SpaceSplits(s[1..]);
      blank := [s[0]] + tail;
      assert s == [s[0]] + s[1..];
      Joins([s[0]], tail, SkipSpace(s[1..]));
    } else {
      blank := "";
    }
  }

  lemma MatchSplits(st: State, token: string) returns (blank: string)
    ensures var (found, st') := Match(st, token);
            Blank(blank) && st.rest == blank + (if found then token + st'.rest else st'.rest)
  {
    blank := SpaceSplits(st.rest);
    hide SkipSpace, Blank;
    var s := SkipSpace(st.rest);
    assert Starts(s, token) ==> s == token + s[|token|..];
  }

  lemma BlanksJoin(a: string, b: string)
    requires Blank(a) && Blank(b)
    ensures Blank(a + b)
  {
  }

  lemma OperatorSplits(level: nat, s: string) returns (strict: bool)
    requires OperatorAt(level, s).Some?
    ensures var (op, n) := OperatorAt(level, s).value;
            op != Power && OperatorLevel(op) == level && n <= |s| && s == InfixToken(op, strict) + s[n..]
  {
    var (op, n) := OperatorAt(level, s).value;
    strict := n == 3;
    assert s == s[..n] + s[n..];
    assert n == 1 ==> s[..1] == [s[0]];
    assert s[..n] == InfixToken(op, strict);
  }

  // ----------------------------------------------------------- numbers, names

  lemma {:induction false} DigitsOfRun(s: string, radix: nat)
    ensures var n := DigitRun(s, radix); forall i :: 0 <= i < n ==> DigitValue(s[i]) < radix
  {
    hide DigitValue;
    if s != "" && DigitValue(s[0]) < radix { DigitsOfRun(s[1..], radix); }
  }

  lemma ReadNumber(st: State, strtod: Strtod) returns (x: Syntax)
    requires Steady(strtod) && ParseNumber(st, strtod).0 >= 0
    ensures Read(x, "", st.rest, ParseNumber(st, strtod).1.rest, 13, strtod)
  {
    var blank := SpaceSplits(st.rest);
    var s := SkipSpace(st.rest);
    hide SkipSpace, Scanned, Read, Blank, DigitRun, Steady;
    var n := if IsPrefixed(s) then 2 + DigitRun(s[2..], if s[1] == 'x' || s[1] == 'X' then 16 else 2) else strtod(s);
    if IsPrefixed(s) { SpelledWithPrefix(s, strtod); } else { SpelledDecimal(s, strtod); }
    x := Number(blank, s[..n]);
    JoinsNumber(x, st.rest, s[n..], strtod);
  }

  lemma JoinsNumber(x: Syntax, text: string, rest: string, strtod: Strtod)
    requires x.Number? && Blank(x.blank) && Scanned(x.spelling, strtod) && text == x.blank + (x.spelling + rest)
    ensures Read(x, "", text, rest, 13, strtod)
  {
    hide Scanned;
    assert "" + rest == rest;
    Joins(x.blank, x.spelling, rest);
  }

  lemma SpelledWithPrefix(s: string, strtod: Strtod)
    requires IsPrefixed(s)
    ensures var radix := if s[1] == 'x' || s[1] == 'X' then 16 else 2;
            var n := DigitRun(s[2..], radix);
            n > 0 ==> Scanned(s[..2 + n], strtod)
  {
    var radix := if s[1] == 'x' || s[1] == 'X' then 16 else 2;
    var n := DigitRun(s[2..], radix);
    DigitsOfRun(s[2..], radix);
    assert s[..2 + n][2..] == s[2..][..n];
    hide DigitValue, DigitRun;
    assert Base(s[..2 + n]) == radix;
    if n > 0 { assert AllDigits(s[..2 + n][2..], radix); }
  }

  lemma SpelledDecimal(s: string, strtod: Strtod)
    requires Steady(strtod) && !IsPrefixed(s) && 0 < strtod(s) <= |s| && (IsDigit(s[0]) || s[0] == '.')
    ensures Scanned(s[..strtod(s)], strtod)
  {
    var spelling := s[..strtod(s)];
    assert s == spelling + s[strtod(s)..];
    assert Base(spelling) == 0;
  }

  lemma IdentifierSplits(st: State) returns (blank: string)
    requires ParseIdentifier(st).0.Some?
    ensures Blank(blank) && st.rest == blank + (ParseIdentifier(st).0.value + ParseIdentifier(st).1.rest)
  {
    blank := SpaceSplits(st.rest);
    hide SkipSpace, Blank;
    var s := SkipSpace(st.rest);
    assert s == s[..WordLength(s)] + s[WordLength(s)..];
  }

  lemma ReadName(st: State) returns (w: Word)
    requires ParseName(st).0.Some? && ParseName(st).0 != Some("Math")
    ensures BlankWord(w) && w.name == ParseName(st).0.value && st.rest == WordText(w) + ParseName(st).1.rest
  {
    hide ParseIdentifier, Match, Blank;
    var (name, st1) := ParseIdentifier(st);
    var blank := IdentifierSplits(st);
    if name == Some("Math") {
      var (dot, st2) := Match(st1, ".");
      var before := MatchSplits(st1, ".");
      var (member, st3) := ParseIdentifier(st2);
      var space := IdentifierSplits(st2);
      w := Member(blank, before, space, member.value);
      MemberJoins(w, st3.rest);
    } else {
      w := Plain(blank, name.value);
      Joins(blank, name.value, st1.rest);
    }
  }

  lemma MemberJoins(w: Word, r: string)
    requires w.Member?
    ensures WordText(w) + r == w.blank + ("Math" + (w.dot + ("." + (w.space + (w.name + r)))))
  {
    WordSplits(w, r);
    InwardTwice("Math", w.dot, ".", w.space + w.name, r);
    Joins(w.space, w.name, r);
  }

  // What a name can stand for, from the meaning back to the names.

  lemma NameOfLeaf(name: string)
    requires Named(name).Value?
    ensures name in LeafNames(Named(name).leaf)
  {
    hide FunctionNamed;
    FunctionsAreNoLeaves(name);
  }

  lemma FunctionsAreNoLeaves(name: string)
    ensures !FunctionNamed(name).Value?
  {
  }

  lemma NameOfFunction(name: string)
    ensures Named(name).Unary1? ==> name in Names1(Named(name).f1)
    ensures Named(name).Binary2? ==> name in Names2(Named(name).f2)
    ensures Named(name).Ternary3? ==> name in Names3(Named(name).f3)
  {
  }

  // ------------------------------------------------------------- productions

  /** Blanks skipped after x only widen the gap. */
  lemma Widen(x: Syntax, gap: string, text: string, blank: string, r: string, level: nat, strtod: Strtod)
    requires Read(x, gap, text, blank + r, level, strtod) && Blank(blank)
    ensures Read(x, gap + blank, text, r, level, strtod)
  {
    hide Text, WellWritten;
    Joins(gap, blank, r);
  }

  lemma {:induction false} ReadConditional(st: State, strtod: Strtod) returns (x: Syntax, gap: string)
    requires Steady(strtod) && ParseConditional(st, strtod).0 >= 0
    ensures Read(x, gap, st.rest, ParseConditional(st, strtod).1.rest, 0, strtod)
    decreases |st.rest|, 40
  {
    hide Steady, Read, Text, WellWritten, Blank;
    var (_, st1) := ParseLeft(1, st, strtod);
    var (question, st2) := Match(st1, "?");
    var a, ga := ReadLeft(1, st, strtod);
    var before := MatchSplits(st1, "?");
    if question {
      var (_, st3) := ParseConditional(st2, strtod);
      var b, gb := ReadConditional(st2, strtod);
      var (_, st4) := Match(st3, ":");
      var colon := MatchSplits(st3, ":");
      var (_, st5) := ParseConditional(st4, strtod);
      var c, gc := ReadConditional(st4, strtod);
      x, gap := Choice(a, ga + before, b, gb + colon, c), gc;
      JoinsChoice(x, ga, before, gb, colon, gap, st.rest, st2.rest, st4.rest, st5.rest, strtod);
    } else {
      Widen(a, ga, st.rest, before, st2.rest, 1, strtod);
      x, gap := a, ga + before;
      Looser(x, gap, st.rest, st2.rest, 1, 0, strtod);
    }
  }

  lemma Looser(x: Syntax, gap: string, text: string, rest: string, level: nat, looser: nat, strtod: Strtod)
    requires Read(x, gap, text, rest, level, strtod) && looser <= level
    ensures Read(x, gap, text, rest, looser, strtod)
  {
  }

  lemma JoinsChoice(x: Syntax, ga: string, before: string, gb: string, colon: string, gap: string,
                    text: string, tb: string, tc: string, rest: string, strtod: Strtod)
    requires x.Choice? && x.question == ga + before && x.colon == gb + colon && Blank(before) && Blank(colon)
    requires Read(x.a, ga, text, before + ("?" + tb), 1, strtod)
    requires Read(x.b, gb, tb, colon + (":" + tc), 0, strtod)
    requires Read(x.c, gap, tc, rest, 0, strtod)
    ensures Read(x, gap, text, rest, 0, strtod)
  {
    Widen(x.a, ga, text, before, "?" + tb, 1, strtod);
    Widen(x.b, gb, tb, colon, ":" + tc, 0, strtod);
    ChoiceText(x.a, x.question, x.b, x.colon, x.c, gap + rest);
    hide Text, Blank;
  }

  lemma {:induction false} ReadTighter(level: nat, st: State, strtod: Strtod) returns (x: Syntax, gap: string)
    requires 1 <= level <= 10 && Steady(strtod) && ParseTighter(level, st, strtod).0 >= 0
    ensures Read(x, gap, st.rest, ParseTighter(level, st, strtod).1.rest, level + 1, strtod)
    decreases |st.rest|, 31 - 2 * level
  {
    hide Steady, Read;
    if level < 10 { x, gap := ReadLeft(level + 1, st, strtod); } else { x, gap := ReadPower(st, strtod); }
  }

  lemma {:induction false} ReadLeft(level: nat, st: State, strtod: Strtod) returns (x: Syntax, gap: string)
    requires 1 <= level <= 10 && Steady(strtod) && ParseLeft(level, st, strtod).0 >= 0
    ensures Read(x, gap, st.rest, ParseLeft(level, st, strtod).1.rest, level, strtod)
    decreases |st.rest|, 32 - 2 * level
  {
    hide Steady, Read;
    var (left, st1) := ParseTighter(level, st, strtod);
    x, gap := ReadTighter(level, st, strtod);
    Looser(x, gap, st.rest, st1.rest, level + 1, level, strtod);
    x, gap := ReadLoop(level, left, x, gap, st.rest, st1, strtod);
  }

  /** The loop, with x read so far. */
  lemma {:induction false} ReadLoop(level: nat, left: int, x0: Syntax, gap0: string, text: string, st: State,
                                    strtod: Strtod)
    returns (x: Syntax, gap: string)
    requires 1 <= level <= 10 && Steady(strtod) && LeftLoop(level, left, st, strtod).0 >= 0
    requires Read(x0, gap0, text, st.rest, level, strtod)
    ensures Read(x, gap, text, LeftLoop(level, left, st, strtod).1.rest, level, strtod)
    decreases |st.rest|, 0
  {
    hide Steady, Read, OperatorAt, SkipSpace, Blank;
    var blank := SpaceSplits(st.rest);
    var s := SkipSpace(st.rest);
    match OperatorAt(level, s) {
      case None =>
        Widen(x0, gap0, text, blank, s, level, strtod);
        x, gap := x0, gap0 + blank;
      case Some((op, n)) =>
        var strict := OperatorSplits(level, s);
        var (right, st1) := ParseTighter(level, st.(rest := s[n..]), strtod);
        var b, gb := ReadTighter(level, st.(rest := s[n..]), strtod);
        var (node, st2) := Emit(st1, Node(K2(Infix(op)), left, right, -1));
        x, gap := Binary(x0, gap0 + blank, op, strict, b), gb;
        JoinsBinary(x, gap0, blank, gap, text, s[n..], st1.rest, strtod);
        x, gap := ReadLoop(level, node, x, gap, text, st2, strtod);
    }
  }

  lemma JoinsBinary(x: Syntax, ga: string, blank: string, gap: string, text: string, tb: string, rest: string,
                    strtod: Strtod)
    requires x.Binary? && x.blank == ga + blank && Blank(blank)
    requires var l := OperatorLevel(x.op);
             && Read(x.a, ga, text, blank + (InfixToken(x.op, x.strict) + tb), if l == 11 then 12 else l, strtod)
             && Read(x.b, gap, tb, rest, if l == 11 then 11 else l + 1, strtod)
    ensures Read(x, gap, text, rest, OperatorLevel(x.op), strtod)
  {
    var l := OperatorLevel(x.op);
    Widen(x.a, ga, text, blank, InfixToken(x.op, x.strict) + tb, if l == 11 then 12 else l, strtod);
    BinaryText(x.a, x.blank, x.op, x.strict, x.b, gap + rest);
    hide Text, Blank, InfixToken;
  }

  lemma {:induction false} ReadPower(st: State, strtod: Strtod) returns (x: Syntax, gap: string)
    requires Steady(strtod) && ParsePower(st, strtod).0 >= 0
    ensures Read(x, gap, st.rest, ParsePower(st, strtod).1.rest, 11, strtod)
    decreases |st.rest|, 10
  {
    hide Steady, Read, Blank;
    var (_, st1) := ParseUnary(st, strtod);
    var a, ga := ReadUnary(st, strtod);
    var (power, st2) := Match(st1, "**");
    var blank := MatchSplits(st1, "**");
    if power {
      var (_, st3) := ParsePower(st2, strtod);
      var b, gb := ReadPower(st2, strtod);
      x, gap := Binary(a, ga + blank, Power, false, b), gb;
      JoinsBinary(x, ga, blank, gap, st.rest, st2.rest, st3.rest, strtod);
    } else {
      Widen(a, ga, st.rest, blank, st2.rest, 12, strtod);
      x, gap := a, ga + blank;
      Looser(x, gap, st.rest, st2.rest, 12, 11, strtod);
    }
  }

  lemma {:induction false} ReadUnary(st: State, strtod: Strtod) returns (x: Syntax, gap: string)
    requires Steady(strtod) && ParseUnary(st, strtod).0 >= 0
    ensures Read(x, gap, st.rest, ParseUnary(st, strtod).1.rest, 12, strtod)
    decreases |st.rest|, 9
  {
    hide Steady, Read, SkipSpace, Blank;
    var blank := SpaceSplits(st.rest);
    var s := SkipSpace(st.rest);
    match PrefixAt(s) {
      case Some(op) =>
        assert s == [PrefixToken(op)] + s[1..];
        var (_, st1) := ParseUnary(st.(rest := s[1..]), strtod);
        var a, g := ReadUnary(st.(rest := s[1..]), strtod);
        x, gap := Prefixed(blank, op, a), g;
        JoinsPrefixed(x, gap, st.rest, s[1..], st1.rest, strtod);
      case None =>
        PrimarySkips(st, strtod);
        x, gap := ReadPrimary(st, strtod);
        Looser(x, gap, st.rest, ParsePrimary(st, strtod).1.rest, 13, 12, strtod);
    }
  }

  lemma JoinsPrefixed(x: Syntax, gap: string, text: string, ta: string, rest: string, strtod: Strtod)
    requires x.Prefixed? && Blank(x.blank) && text == x.blank + ([PrefixToken(x.prefix)] + ta)
    requires Read(x.a, gap, ta, rest, 12, strtod)
    ensures Read(x, gap, text, rest, 12, strtod)
  {
    PrefixedText(x.blank, x.prefix, x.a, gap + rest);
    hide Text, Blank, PrefixToken;
  }

  lemma {:induction false} ReadPrimary(st: State, strtod: Strtod) returns (x: Syntax, gap: string)
    requires Steady(strtod) && ParsePrimary(st, strtod).0 >= 0
    ensures Read(x, gap, st.rest, ParsePrimary(st, strtod).1.rest, 13, strtod)
    decreases |st.rest|, 8
  {
    hide Steady, Read, SkipSpace, Blank, ParseNumber, ParseName, ParseNamed, ParseParenthesized;
    var (open, st1) := Match(st, "(");
    if open {
      var blank := MatchSplits(st, "(");
      x, gap := ReadParenthesized(blank, st.rest, st1, strtod);
    } else {
      TokensSkip(st, strtod);
      var (number, st2) := ParseNumber(st1, strtod);
      if number >= 0 {
        x := ReadNumber(st, strtod);
        gap := "";
      } else {
        var (name, st3) := ParseName(st1);
        MathIsNoName(st3, strtod);
        var w := ReadName(st);
        x, gap := ReadNamed(w, st.rest, st3, strtod);
      }
    }
  }

  lemma MathIsNoName(st: State, strtod: Strtod)
    ensures ParseNamed("Math", st, strtod).0 < 0
  {
  }

  lemma TokensSkip(st: State, strtod: Strtod)
    ensures ParseNumber(Tight(st), strtod) == ParseNumber(st, strtod) && ParseName(Tight(st)) == ParseName(st)
  {
    SkipTwice(st.rest);
    hide SkipSpace, Match, ParsePrefixed, ParseDecimal;
  }

  lemma {:induction false} ReadParenthesized(blank: string, text: string, st: State, strtod: Strtod)
    returns (x: Syntax, gap: string)
    requires Blank(blank) && text == blank + ("(" + st.rest)
    requires Steady(strtod) && ParseParenthesized(st, strtod).0 >= 0
    ensures Read(x, gap, text, ParseParenthesized(st, strtod).1.rest, 13, strtod)
    decreases |st.rest|, 41
  {
    hide Steady, Read, Blank;
    var st1 := st.(depth := st.depth + 1);
    var (_, st2) := ParseConditional(st1, strtod);
    var inner, gi := ReadConditional(st1, strtod);
    var (_, st3) := Match(st2.(depth := st2.depth - 1), ")");
    var close := MatchSplits(st2.(depth := st2.depth - 1), ")");
    x, gap := Grouped(blank, inner, gi + close), "";
    JoinsGrouped(x, gi, close, text, st.rest, st3.rest, strtod);
  }

  lemma JoinsGrouped(x: Syntax, gi: string, close: string, text: string, ti: string, rest: string, strtod: Strtod)
    requires x.Grouped? && Blank(x.open) && x.close == gi + close && Blank(close) && text == x.open + ("(" + ti)
    requires Read(x.inner, gi, ti, close + (")" + rest), 0, strtod)
    ensures Read(x, "", text, rest, 13, strtod)
  {
    Widen(x.inner, gi, ti, close, ")" + rest, 0, strtod);
    GroupedText(x.open, x.inner, x.close, rest);
    hide Text, Blank;
    assert "" + rest == rest;
  }

  lemma {:induction false} ReadNamed(w: Word, text: string, st: State, strtod: Strtod) returns (x: Syntax, gap: string)
    requires BlankWord(w) && text == WordText(w) + st.rest
    requires Steady(strtod) && ParseNamed(w.name, st, strtod).0 >= 0
    ensures Read(x, gap, text, ParseNamed(w.name, st, strtod).1.rest, 13, strtod)
    decreases |st.rest|, 43
  {
    hide Steady, Read, Blank, Named, BlankWord, ParseArguments;
    var meaning := Named(w.name);
    if meaning.Value? {
      NameOfLeaf(w.name);
      x, gap := Variable(w, meaning.leaf), "";
      ReadVariable(x, text, st.rest, strtod);
    } else {
      var (open, st1) := Match(st, "(");
      var blank := MatchSplits(st, "(");
      var (args, st2) := ParseArguments(Arity(meaning), [], st1, strtod);
      var (close, st3) := Match(st2, ")");
      var before := MatchSplits(st2, ")");
      NameOfFunction(w.name);
      gap := "";
      match meaning {
        case Unary1(f) =>
          var a, ga := ReadLast([], st1, strtod);
          x := Apply1(f, w, blank, a, ga + before);
          JoinsApply1(x, ga, before, text, st1.rest, st3.rest, strtod);
        case Binary2(f) =>
          var a, comma, tb, b, gb := ReadTwo([], st1, strtod);
          x := Apply2(f, w, blank, a, comma, b, gb + before);
          JoinsApply2(x, gb, before, text, st1.rest, tb, st3.rest, strtod);
        case Ternary3(f) =>
          var a, comma, tb, b, comma2, tc, c, gc := ReadThree(st1, strtod);
          x := Apply3(f, w, blank, a, comma, b, comma2, c, gc + before);
          JoinsApply3(x, gc, before, text, st1.rest, tb, tc, st3.rest, strtod);
      }
    }
  }

  lemma ReadVariable(x: Syntax, text: string, rest: string, strtod: Strtod)
    requires x.Variable? && BlankWord(x.word) && x.word.name in LeafNames(x.leaf) && text == WordText(x.word) + rest
    ensures Read(x, "", text, rest, 13, strtod)
  {
    hide BlankWord, LeafNames, WordText;
    assert "" + rest == rest;
  }

  // The arguments of a call, the last, the last two, all three.

  lemma {:induction false} ReadLast(args: seq<int>, st: State, strtod: Strtod) returns (x: Syntax, gap: string)
    requires Steady(strtod) && |ParseArguments(1, args, st, strtod).0| > |args|
    ensures Read(x, gap, st.rest, ParseArguments(1, args, st, strtod).1.rest, 0, strtod)
    decreases |st.rest|, 42, 1
  {
    hide Steady, Read;
    x, gap := ReadConditional(st, strtod);
  }

  /** An argument up to the comma after it. */
  lemma {:induction false} ReadToComma(left: nat, args: seq<int>, st: State, strtod: Strtod)
    returns (x: Syntax, comma: string, st': State, args': seq<int>)
    requires left >= 2 && Steady(strtod) && |ParseArguments(left, args, st, strtod).0| >= |args| + left
    ensures Read(x, comma, st.rest, "," + st'.rest, 0, strtod)
    ensures |st'.rest| < |st.rest| && |args'| == |args| + 1
    ensures ParseArguments(left, args, st, strtod) == ParseArguments(left - 1, args', st', strtod)
    decreases |st.rest|, 42, left, 0
  {
    hide Steady, Read, Blank;
    var (arg, st1) := ParseConditional(st, strtod);
    var a, ga := ReadConditional(st, strtod);
    var (found, st2) := Match(st1, ",");
    var blank := MatchSplits(st1, ",");
    Widen(a, ga, st.rest, blank, "," + st2.rest, 0, strtod);
    x, comma, st', args' := a, ga + blank, st2, args + [arg];
  }

  lemma {:induction false} ReadTwo(args: seq<int>, st: State, strtod: Strtod)
    returns (x: Syntax, comma: string, ty: string, y: Syntax, gap: string)
    requires Steady(strtod) && |ParseArguments(2, args, st, strtod).0| >= |args| + 2
    ensures Read(x, comma, st.rest, "," + ty, 0, strtod) && |ty| < |st.rest|
    ensures Read(y, gap, ty, ParseArguments(2, args, st, strtod).1.rest, 0, strtod)
    decreases |st.rest|, 42, 2, 1
  {
    hide Steady, Read, ParseArguments;
    var st', args';
    x, comma, st', args' := ReadToComma(2, args, st, strtod);
    ty := st'.rest;
    y, gap := ReadLast(args', st', strtod);
  }

  lemma {:induction false} ReadThree(st: State, strtod: Strtod)
    returns (x: Syntax, comma: string, ty: string, y: Syntax, comma2: string, tz: string, z: Syntax, gap: string)
    requires Steady(strtod) && |ParseArguments(3, [], st, strtod).0| >= 3
    ensures Read(x, comma, st.rest, "," + ty, 0, strtod) && Read(y, comma2, ty, "," + tz, 0, strtod)
    ensures Read(z, gap, tz, ParseArguments(3, [], st, strtod).1.rest, 0, strtod)
    decreases |st.rest|, 42, 3, 1
  {
    hide Steady, Read, ParseArguments;
    var st', args';
    x, comma, st', args' := ReadToComma(3, [], st, strtod);
    ty := st'.rest;
    y, comma2, tz, z, gap := ReadTwo(args', st', strtod);
  }

  lemma JoinsApply1(x: Syntax, ga: string, before: string, text: string, ta: string, rest: string, strtod: Strtod)
    requires x.Apply1? && BlankWord(x.word) && x.word.name in Names1(x.f1) && Blank(x.open)
    requires x.close == ga + before && Blank(before) && text == WordText(x.word) + (x.open + ("(" + ta))
    requires Read(x.a, ga, ta, before + (")" + rest), 0, strtod)
    ensures Read(x, "", text, rest, 13, strtod)
  {
    Widen(x.a, ga, ta, before, ")" + rest, 0, strtod);
    Apply1Text(x.f1, x.word, x.open, x.a, x.close, rest);
    hide Text, Blank, BlankWord, Names1, WordText;
    assert "" + rest == rest;
  }

  lemma JoinsApply2(x: Syntax, gb: string, before: string, text: string, ta: string, tb: string, rest: string,
                    strtod: Strtod)
    requires x.Apply2? && BlankWord(x.word) && x.word.name in Names2(x.f2) && Blank(x.open)
    requires x.close == gb + before && Blank(before) && text == WordText(x.word) + (x.open + ("(" + ta))
    requires Read(x.a, x.comma, ta, "," + tb, 0, strtod)
    requires Read(x.b, gb, tb, before + (")" + rest), 0, strtod)
    ensures Read(x, "", text, rest, 13, strtod)
  {
    Widen(x.b, gb, tb, before, ")" + rest, 0, strtod);
    Apply2Text(x.f2, x.word, x.open, x.a, x.comma, x.b, x.close, rest);
    hide Text, Blank, BlankWord, Names2, WordText;
    assert "" + rest == rest;
  }

  lemma JoinsApply3(x: Syntax, gc: string, before: string, text: string, ta: string, tb: string, tc: string, rest: string,
                    strtod: Strtod)
    requires x.Apply3? && BlankWord(x.word) && x.word.name in Names3(x.f3) && Blank(x.open)
    requires x.close == gc + before && Blank(before) && text == WordText(x.word) + (x.open + ("(" + ta))
    requires Read(x.a, x.comma, ta, "," + tb, 0, strtod) && Read(x.b, x.comma2, tb, "," + tc, 0, strtod)
    requires Read(x.c, gc, tc, before + (")" + rest), 0, strtod)
    ensures Read(x, "", text, rest, 13, strtod)
  {
    Widen(x.c, gc, tc, before, ")" + rest, 0, strtod);
    Apply3Text(x, rest);
    hide Text, Blank, BlankWord, Names3, WordText;
    assert "" + rest == rest;
  }

  // ------------------------------------------------------------- the language

  /** The four limits, for one way of writing an expression and the blanks after it. */
  predicate Within(x: Syntax, trailing: string) {
    && |Text(x) + trailing| <= MAX_EXPRESSION && Size(Meant(x)) <= MAX_NODES && Nesting(x) <= MAX_DEPTH
    && Depth(Meant(x)) <= MAX_DEPTH
  }

  function Layout(e: Expr): Program { Program(Flat(e, 0), Size(e) - 1, Depth(e)) }

  /** The text is x and blanks after it, within the limits. */
  ghost predicate Writes(x: Syntax, trailing: string, text: string, strtod: Strtod) {
    WellWritten(x, strtod) && Blank(trailing) && text == Text(x) + trailing && Within(x, trailing)
  }

  /** Exactly the written expressions within the limits compile, and to the layouts of what they mean. */
  lemma CompilesIffWritten(text: string, program: Program, strtod: Strtod)
    requires Steady(strtod)
    ensures Compile(text, strtod) == Some(program)
       <==> exists x, trailing :: Writes(x, trailing, text, strtod) && program == Layout(Meant(x))
  {
    hide Steady, WellWritten, Blank, Text, Compile, Within, Layout, Meant;
    if Compile(text, strtod) == Some(program) {
      var x, trailing := WritingOf(text, strtod);
      CompilesIffWithin(x, trailing, strtod);
      assert Writes(x, trailing, text, strtod);
    }
    forall x, trailing | Writes(x, trailing, text, strtod) && program == Layout(Meant(x))
      ensures Compile(text, strtod) == Some(program)
    {
      CompilesIffWithin(x, trailing, strtod);
    }
  }

  lemma CompilesIffWithin(x: Syntax, trailing: string, strtod: Strtod)
    requires WellWritten(x, strtod) && Blank(trailing)
    ensures Compile(Text(x) + trailing, strtod) == if Within(x, trailing) then Some(Layout(Meant(x))) else None
  {
    hide WellWritten, Blank, Text, Compile, Size, Nesting, Depth, Meant, Flat, WellShaped, Denote;
    CompileReadsWriting(x, trailing, strtod);
  }

  /** No text that compiles can be read in two ways. */
  lemma Unambiguous(x: Syntax, y: Syntax, trailing: string, trailing': string, text: string, strtod: Strtod)
    requires Writes(x, trailing, text, strtod)
    requires WellWritten(y, strtod) && Blank(trailing') && text == Text(y) + trailing'
    ensures Meant(x) == Meant(y)
  {
    hide WellWritten, Blank, Text, Compile, Size, Nesting, Depth, Meant, Flat, WellShaped, Denote;
    CompileReadsWriting(x, trailing, strtod);
    CompileReadsWriting(y, trailing', strtod);
  }

  /** Blanks, spellings and redundant parentheses do not matter: two ways of writing one expression that both respect
      the limits on length and nesting compile to the same program, or both do not. */
  lemma WritingsAgree(x: Syntax, y: Syntax, trailing: string, trailing': string, strtod: Strtod)
    requires WellWritten(x, strtod) && WellWritten(y, strtod) && Blank(trailing) && Blank(trailing')
    requires Meant(x) == Meant(y) && Nesting(x) <= MAX_DEPTH && Nesting(y) <= MAX_DEPTH
    requires |Text(x) + trailing| <= MAX_EXPRESSION && |Text(y) + trailing'| <= MAX_EXPRESSION
    ensures Compile(Text(x) + trailing, strtod) == Compile(Text(y) + trailing', strtod)
  {
    hide WellWritten, Blank, Text, Compile, Size, Nesting, Depth, Meant, Layout;
    CompilesIffWithin(x, trailing, strtod);
    CompilesIffWithin(y, trailing', strtod);
  }

  /** What was written, recovered from a text that compiles. */
  lemma WritingOf(text: string, strtod: Strtod) returns (x: Syntax, trailing: string)
    requires Steady(strtod) && Compile(text, strtod).Some?
    ensures WellWritten(x, strtod) && Blank(trailing) && text == Text(x) + trailing
  {
    hide Steady, WellWritten, Text, ParseConditional, Blank, SkipSpace, TreeDepth, WellShaped;
    var st0 := State(text, [], 0, false);
    var (root, st) := ParseConditional(st0, strtod);
    var gap;
    x, gap := ReadConditional(st0, strtod);
    var blank := SpaceSplits(st.rest);
    assert blank + "" == blank;
    BlanksJoin(gap, blank);
    trailing := gap + blank;
  }

  // -------------------------------------------------------- the C scanner

  // What strtod takes of a text that starts with a digit or a point and is not hexadecimal (section 7.22.1.3 of the C
  // standard): digits with an optional point, then an exponent if it has digits.

  function DecimalDigits(s: string): nat {
    var n := DigitRun(s, 10);
    if n < |s| && s[n] == '.' then
      var m := DigitRun(s[n + 1..], 10);
      if n + m == 0 then 0 else n + 1 + m
    else n
  }

  function ExponentLength(s: string): nat {
    if s == "" || (s[0] != 'e' && s[0] != 'E') then 0
    else
      var sign := if |s| > 1 && (s[1] == '+' || s[1] == '-') then 1 else 0;
      var n := DigitRun(s[1 + sign..], 10);
      if n == 0 then 0 else 1 + sign + n
  }

  function ScanDecimal(s: string): nat {
    var n := DecimalDigits(s);
    if n == 0 || n > |s| then 0 else n + ExponentLength(s[n..])
  }

  lemma DropOfSum(s: string, r: string, n: nat)
    requires n <= |s|
    ensures (s + r)[n..] == s[n..] + r
  {
  }

  lemma {:induction false} RunWithin(s: string, r: string, r': string)
    requires DigitRun(s + r, 10) <= |s| && Ends(r')
    ensures DigitRun(s + r', 10) == DigitRun(s + r, 10)
  {
    if s == "" {
      assert s + r' == r';
    } else {
      assert (s + r)[0] == (s + r')[0] == s[0] && (s + r)[1..] == s[1..] + r && (s + r')[1..] == s[1..] + r';
      if DigitValue(s[0]) < 10 { RunWithin(s[1..], r, r'); }
    }
  }

  lemma DecimalWithin(s: string, r: string, r': string)
    requires 0 < DecimalDigits(s + r) <= |s| && Ends(r')
    ensures DecimalDigits(s + r') == DecimalDigits(s + r)
  {
    var n := DigitRun(s + r, 10);
    RunWithin(s, r, r');
    if n < |s| {
      assert (s + r)[n] == (s + r')[n] == s[n];
      DropOfSum(s, r, n + 1);
      DropOfSum(s, r', n + 1);
      if s[n] == '.' { RunWithin(s[n + 1..], r, r'); }
    } else {
      assert r' != "" ==> (s + r')[n] == r'[0];
    }
  }

  lemma ExponentWithin(s: string, r: string, r': string)
    requires ExponentLength(s + r) == |s| && Ends(r')
    ensures ExponentLength(s + r') == |s|
  {
    if s == "" {
      assert s + r' == r';
    } else {
      assert (s + r)[0] == (s + r')[0] == s[0];
      assert |s| > 1 && (s + r)[1] == (s + r')[1] == s[1];
      var from := if s[1] == '+' || s[1] == '-' then 2 else 1;
      DropOfSum(s, r, from);
      DropOfSum(s, r', from);
      RunWithin(s[from..], r, r');
    }
  }

  /** That scanner is steady. */
  lemma ScanDecimalIsSteady()
    ensures Steady(ScanDecimal)
  {
    hide DecimalDigits, ExponentLength;
    forall s, r, r' | 0 < |s| == ScanDecimal(s + r) && Ends(r')
      ensures ScanDecimal(s + r') == |s|
    {
      var n := DecimalDigits(s + r);
      DropOfSum(s, r, n);
      DropOfSum(s, r', n);
      DecimalWithin(s, r, r');
      ExponentWithin(s[n..], r, r');
    }
  }
}
