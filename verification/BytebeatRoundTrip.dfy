/**
 Compiling a written expression gives exactly the expression it means, however it is
 spaced, spelled and parenthesized, whenever text length, node count, nesting and depth
 are within the limits, and fails whenever one of them is not.
 */
module BytebeatRoundTrip {
  import opened Common
  import opened BytebeatProgram
  import opened BytebeatGrammar
  import opened BytebeatSoundness
  import opened BytebeatSyntax

  // ------------------------------------------------------ the expected outcome

  predicate Ready(st: State) {
    !st.failed && 0 <= st.depth <= MAX_DEPTH && |st.nodes| <= MAX_NODES
  }

  /** The limits leave room for e, written with this much nesting. */
  predicate Fits(e: Expr, nesting: nat, st: State) {
    st.depth + nesting <= MAX_DEPTH && |st.nodes| + Size(e) <= MAX_NODES
  }

  function Root(e: Expr, st: State): int { |st.nodes| + Size(e) - 1 }

  function After(e: Expr, st: State, r: string): State {
    State(r, st.nodes + Flat(e, |st.nodes|), st.depth, false)
  }

  predicate Refused(result: (int, State)) { result.0 < 0 && result.1.failed }

  /** A state with the blanks at its cursor skipped; productions do not tell it from the state itself. */
  function Tight(st: State): State { st.(rest := SkipSpace(st.rest)) }

  predicate Same(s: State, t: State) { Tight(s) == Tight(t) }

  /** e was parsed off the front, leaving r up to blanks, if it fits; otherwise the parse failed. */
  predicate Parses(result: (int, State), e: Expr, nesting: nat, st: State, r: string) {
    if Fits(e, nesting, st) then result.0 == Root(e, st) && Same(result.1, After(e, st, r)) else Refused(result)
  }

  /** The production of a level. */
  function Production(level: nat, st: State, strtod: Strtod): (int, State)
    requires level <= 13
  {
    if level == 0 then ParseConditional(st, strtod)
    else if level <= 10 then ParseLeft(level, st, strtod)
    else if level == 11 then ParsePower(st, strtod)
    else if level == 12 then ParseUnary(st, strtod)
    else ParsePrimary(st, strtod)
  }

  // -------------------------------------------------------------- small steps

  lemma NoBlank(s: string)
    requires s == "" || !IsSpace(s[0])
    ensures SkipSpace(s) == s
  {
  }

  lemma SkipTwice(s: string)
    ensures SkipSpace(SkipSpace(s)) == SkipSpace(s)
  {
    NoBlank(SkipSpace(s));
  }

  lemma MatchTight(st: State, token: string)
    ensures Match(st, token) == Match(Tight(st), token)
  {
    SkipTwice(st.rest);
  }

  lemma MatchToken(st: State, token: string, s: string)
    requires token != "" && !IsSpace(token[0]) && SkipSpace(st.rest) == token + s
    ensures Match(st, token) == (true, st.(rest := s))
  {
    assert (token + s)[..|token|] == token && (token + s)[|token|..] == s;
  }

  lemma MatchKeepsFailure(st: State, token: string)
    ensures Match(st, token).1.failed == st.failed
  {
  }

  lemma MatchNothing(st: State, token: string)
    requires !Starts(SkipSpace(st.rest), token)
    ensures Match(st, token) == (false, Tight(st))
  {
  }

  lemma EmitSame(s: State, t: State, node: Node)
    requires Same(s, t)
    ensures Emit(s, node).0 == Emit(t, node).0 && Same(Emit(s, node).1, Emit(t, node).1)
    ensures Emit(s, node).1.failed == Emit(t, node).1.failed
  {
  }

  // Appending to a text appends to its last part.

  lemma Inward(a: string, b: string, c: string, r: string)
    ensures a + (b + c) + r == a + (b + (c + r))
  {
  }

  lemma Joins(a: string, b: string, c: string)
    ensures a + b + c == a + (b + c)
  {
  }

  lemma InwardTwice(a: string, b: string, c: string, d: string, r: string)
    ensures a + (b + (c + d)) + r == a + (b + (c + (d + r)))
  {
    Inward(a, b, c + d, r);
    assert c + d + r == c + (d + r);
  }

  // The node of an operator, when its operands were just parsed.

  lemma EmitOne(a: Expr, op: Op1, st: State, r: string)
    requires Ready(st) && |st.nodes| + Size(a) <= MAX_NODES
    ensures var (e, result) := (One(op, a), Emit(After(a, st, r), Node(K1(op), Root(a, st), -1, -1)));
            if |st.nodes| + Size(e) <= MAX_NODES then result == (Root(e, st), After(e, st, r)) else Refused(result)
  {
    hide Flat, Size, Emit;
    FlatOfOne(a, op, |st.nodes|);
    EmitJoined(st.nodes, Flat(a, |st.nodes|), Node(K1(op), Root(a, st), -1, -1), After(a, st, r));
  }

  lemma EmitJoined(before: seq<Node>, x: seq<Node>, n: Node, st: State)
    requires st.nodes == before + x
    ensures Emit(st, n) ==
      if |before| + |x| >= MAX_NODES then (-1, Fail(st)) else (|before| + |x|, st.(nodes := before + (x + [n])))
  {
    Joined(before, x, [n]);
  }

  lemma FlatOfOne(a: Expr, op: Op1, base: nat)
    ensures Flat(One(op, a), base) == Flat(a, base) + [Node(K1(op), base + Size(a) - 1, -1, -1)]
    ensures Size(One(op, a)) == Size(a) + 1
  {
    var e := One(op, a);
    FlatParts(e, base);
    assert First(e, base) == Flat(a, base) && Second(e, base) == [] && Third(e, base) == [];
    hide Flat, First, Second, Third;
    NothingBetween(Flat(a, base), RootNode(e, base));
  }

  lemma NothingBetween(x: seq<Node>, n: Node)
    ensures x + ([] + ([] + [n])) == x + [n]
  {
  }

  lemma Joined(x: seq<Node>, y: seq<Node>, z: seq<Node>)
    ensures x + (y + z) == x + y + z
  {
  }

  lemma EmitTwo(a: Expr, b: Expr, op: Op2, st: State, r1: string, r: string)
    requires Ready(st) && |st.nodes| + Size(a) + Size(b) <= MAX_NODES
    ensures var e, st1 := Two(op, a, b), After(a, st, r1);
            var result := Emit(After(b, st1, r), Node(K2(op), Root(a, st), Root(b, st1), -1));
            if |st.nodes| + Size(e) <= MAX_NODES then result == (Root(e, st), After(e, st, r)) else Refused(result)
  {
    var e, base := Two(op, a, b), |st.nodes|;
    FlatParts(e, base);
    var n := RootNode(e, base);
    assert n == Node(K2(op), Root(a, st), Root(b, After(a, st, r1)), -1);
    assert Flat(e, base) == Flat(a, base) + (Flat(b, base + Size(a)) + ([] + [n]));
    hide Flat;
    Regrouped(st.nodes, Flat(a, base), Flat(b, base + Size(a)), [], [n]);
    var both := st.nodes + Flat(a, base) + Flat(b, base + Size(a));
    assert both + [] == both;
  }

  lemma EmitThree(a: Expr, b: Expr, c: Expr, op: Op3, st: State, r1: string, r2: string, r: string)
    requires Ready(st) && |st.nodes| + Size(a) + Size(b) + Size(c) <= MAX_NODES
    ensures var e, st1 := Three(op, a, b, c), After(a, st, r1);
            var st2 := After(b, st1, r2);
            var result := Emit(After(c, st2, r), Node(K3(op), Root(a, st), Root(b, st1), Root(c, st2)));
            if |st.nodes| + Size(e) <= MAX_NODES then result == (Root(e, st), After(e, st, r)) else Refused(result)
  {
    var e, base, st1 := Three(op, a, b, c), |st.nodes|, After(a, st, r1);
    FlatParts(e, base);
    var n := RootNode(e, base);
    assert n == Node(K3(op), Root(a, st), Root(b, st1), Root(c, After(b, st1, r2)));
    hide Flat;
    Regrouped(st.nodes, Flat(a, base), Flat(b, base + Size(a)), Flat(c, base + Size(a) + Size(b)), [n]);
  }

  // -------------------------------------------------- blanks before anything

  lemma PrimarySkips(st: State, strtod: Strtod)
    ensures ParsePrimary(st, strtod) == ParsePrimary(Tight(st), strtod)
  {
    MatchTight(st, "(");
    hide Match, ParseParenthesized, ParseNumber, ParseName, ParseNamed;
  }

  lemma UnarySkips(st: State, strtod: Strtod)
    ensures ParseUnary(st, strtod) == ParseUnary(Tight(st), strtod)
  {
    SkipTwice(st.rest);
    hide SkipSpace, PrefixAt, ParsePrimary, Emit;
  }

  lemma PowerSkips(st: State, strtod: Strtod)
    ensures ParsePower(st, strtod) == ParsePower(Tight(st), strtod)
  {
    UnarySkips(st, strtod);
    hide ParseUnary, Tight, Match, Emit;
  }

  lemma {:induction false} LeftSkips(level: nat, st: State, strtod: Strtod)
    requires 1 <= level <= 10
    ensures ParseLeft(level, st, strtod) == ParseLeft(level, Tight(st), strtod)
    ensures ParseTighter(level, st, strtod) == ParseTighter(level, Tight(st), strtod)
    decreases 10 - level
  {
    hide Tight, LeftLoop, ParsePower;
    if level < 10 { LeftSkips(level + 1, st, strtod); } else { PowerSkips(st, strtod); }
  }

  /** No production cares about blanks at the cursor. */
  lemma ProductionSkips(level: nat, st: State, strtod: Strtod)
    requires level <= 13
    ensures Production(level, st, strtod) == Production(level, Tight(st), strtod)
  {
    if level <= 10 { LeftSkips(if level == 0 then 1 else level, st, strtod); }
    PowerSkips(st, strtod);
    UnarySkips(st, strtod);
    PrimarySkips(st, strtod);
    hide Tight, ParseLeft, ParsePower, ParseUnary, ParsePrimary, Match, Emit;
  }

  lemma SameLoop(level: nat, left: int, s: State, t: State, strtod: Strtod)
    requires 1 <= level <= 10 && Same(s, t)
    ensures LeftLoop(level, left, s, strtod) == LeftLoop(level, left, t, strtod)
  {
    hide SkipSpace, OperatorAt, ParseTighter, Emit;
    assert s.(rest := "") == t.(rest := "");
  }

  lemma MatchAfter(s: State, t: State, token: string, r: string)
    requires Same(s, t) && token != "" && !IsSpace(token[0]) && SkipSpace(t.rest) == token + r
    ensures Match(s, token) == (true, t.(rest := r))
  {
    MatchToken(s, token, r);
  }

  // ------------------------------------------------------------------- words

  lemma {:induction false} WordLengthOf(w: string, r: string)
    requires (forall i :: 0 <= i < |w| ==> IsWord(w[i])) && (r == "" || !IsWord(r[0]))
    ensures WordLength(w + r) == |w|
  {
    if w == "" {
      assert w + r == r;
    } else {
      assert (w + r)[1..] == w[1..] + r;
      WordLengthOf(w[1..], r);
    }
  }

  lemma IdentifierIs(w: string, st: State, r: string)
    requires IsIdentifier(w) && (r == "" || !IsWord(r[0])) && SkipSpace(st.rest) == w + r
    ensures ParseIdentifier(st) == (Some(w), st.(rest := r))
  {
    assert (w + r)[0] == w[0];
    WordLengthOf(w, r);
    assert (w + r)[..|w|] == w && (w + r)[|w|..] == r;
  }

  /** The text of a word without the blanks before it. */
  function Spelled(w: Word): string {
    match w
    case Plain(_, name) => name
    case Member(_, dot, space, name) => "Math" + (dot + ("." + (space + name)))
  }

  lemma AfterBlank(blank: string, s: string)
    requires Blank(blank) && s != "" && !IsSpace(s[0])
    ensures SkipSpace(blank + s) == s
  {
    SkipsBlank(blank, s);
    NoBlank(s);
  }

  lemma MathIsRead(st: State, rest: string)
    requires SkipSpace(st.rest) == "Math" + rest && (rest == "" || !IsWord(rest[0]))
    ensures ParseIdentifier(st) == (Some("Math"), st.(rest := rest))
  {
    hide SkipSpace;
    IdentifierIs("Math", st, rest);
  }

  lemma DotIsRead(dot: string, tail: string, st: State)
    requires Blank(dot) && st.rest == dot + ("." + tail)
    ensures !IsWord(st.rest[0]) && Match(st, ".") == (true, st.(rest := tail))
  {
    BlankIsFresh(dot, "." + tail);
    AfterBlank(dot, "." + tail);
    MatchToken(st, ".", tail);
  }

  lemma MemberIsRead(w: Word, st: State, r: string)
    requires BlankWord(w) && w.Member? && (r == "" || !IsWord(r[0])) && SkipSpace(st.rest) == Spelled(w) + r
    requires IsIdentifier(w.name)
    ensures ParseName(st) == (Some(w.name), st.(rest := r))
  {
    var tail := w.space + (w.name + r);
    var rest := w.dot + ("." + tail);
    assert Spelled(w) + r == "Math" + rest by {
      InwardTwice("Math", w.dot, ".", w.space + w.name, r);
      Joins(w.space, w.name, r);
    }
    assert (w.name + r)[0] == w.name[0];
    AfterBlank(w.space, w.name + r);
    hide SkipSpace, ParseIdentifier, Match, Blank, Spelled, IsIdentifier, IsWord;
    var named, dotted := st.(rest := rest), st.(rest := tail);
    DotIsRead(w.dot, tail, named);
    MathIsRead(st, rest);
    IdentifierIs(w.name, dotted, r);
  }

  lemma WordIsRead(w: Word, st: State, r: string)
    requires BlankWord(w) && (r == "" || !IsWord(r[0])) && SkipSpace(st.rest) == Spelled(w) + r
    requires IsIdentifier(w.name) && w.name != "Math"
    ensures ParseName(st) == (Some(w.name), st.(rest := r))
  {
    if w.Member? {
      MemberIsRead(w, st, r);
    } else {
      IdentifierIs(w.name, st, r);
      hide ParseIdentifier, SkipSpace, IsWord;
    }
  }

  // ----------------------------------------------------------------- numbers

  lemma {:induction false} DigitRunIs(s: string, r: string, radix: nat)
    requires (forall i :: 0 <= i < |s| ==> DigitValue(s[i]) < radix) && (r == "" || DigitValue(r[0]) >= radix)
    ensures DigitRun(s + r, radix) == |s|
  {
    hide DigitValue;
    if s == "" {
      assert s + r == r;
    } else {
      assert (s + r)[0] == s[0] && (s + r)[1..] == s[1..] + r;
      DigitRunIs(s[1..], r, radix);
    }
  }

  lemma {:induction false} AccumulateSplits(s: string, c: char, radix: nat, v: nat)
    ensures Accumulate(s + [c], radix, v) == (Accumulate(s, radix, v) * radix + DigitValue(c)) % TWO32
    decreases |s|
  {
    hide DigitValue;
    if s == "" {
      assert s + [c] == [c] && [c][1..] == "";
    } else {
      assert (s + [c])[0] == s[0] && (s + [c])[1..] == s[1..] + [c];
      AccumulateSplits(s[1..], c, radix, (v * radix + DigitValue(s[0])) % TWO32);
    }
  }

  lemma RemainderOfStep(a: nat, radix: nat, d: nat)
    ensures (a % TWO32 * radix + d) % TWO32 == (a * radix + d) % TWO32
  {
    var q := a / TWO32;
    assert a == q * TWO32 + a % TWO32;
    assert a * radix == (q * radix) * TWO32 + a % TWO32 * radix;
    RemainderPlus(q * radix, a % TWO32 * radix + d);
  }

  lemma RemainderPlus(q: int, n: int)
    ensures (q * TWO32 + n) % TWO32 == n % TWO32
  {
  }

  /** Accumulating digits in 32 bits gives the number they spell, wrapped once. */
  lemma {:induction false} AccumulateIsPositional(s: string, radix: nat)
    requires s != ""
    ensures Accumulate(s, radix, 0) == Positional(s, radix) % TWO32
  {
    var n := |s| - 1;
    assert s == s[..n] + [s[n]];
    AccumulateSplits(s[..n], s[n], radix, 0);
    hide DigitValue;
    if n > 0 {
      AccumulateIsPositional(s[..n], radix);
      RemainderOfStep(Positional(s[..n], radix), radix, DigitValue(s[n]));
    } else {
      assert s[..n] == "";
    }
  }

  lemma EmitAtom(leaf: Leaf, st: State, r: string)
    requires Ready(st)
    ensures Parses(EmitLeaf(st.(rest := r), leaf), Atom(leaf), 0, st, r)
  {
    assert Flat(Atom(leaf), |st.nodes|) == [Node(KAtom(leaf), -1, -1, -1)];
  }

  lemma NumberIsRead(spelling: string, st: State, r: string, strtod: Strtod)
    requires Scanned(spelling, strtod) && Ends(r) && SkipSpace(st.rest) == spelling + r
    ensures ParseNumber(st, strtod) == EmitLeaf(st.(rest := r), NumberOf(spelling))
  {
    var s := spelling + r;
    var base := Base(spelling);
    if base != 0 {
      var digits := spelling[2..];
      assert s[0] == spelling[0] && s[1] == spelling[1] && s[2..] == digits + r;
      assert r != "" ==> DigitValue(r[0]) >= base;
      DigitRunIs(digits, r, base);
      AccumulateIsPositional(digits, base);
      assert s[2..2 + |digits|] == digits && s[2 + |digits|..] == r;
      hide DigitRun, Accumulate, Positional, DigitValue;
    } else {
      assert s[0] == spelling[0] && (|spelling| > 1 ==> s[1] == spelling[1]) && (|spelling| == 1 && r != "" ==> s[1] == r[0]);
      assert !IsPrefixed(s);
      assert strtod(spelling + r) == |spelling|;
      assert s[..|spelling|] == spelling && s[|spelling|..] == r;
    }
  }

  lemma NumberStarts(spelling: string, strtod: Strtod)
    requires Scanned(spelling, strtod)
    ensures spelling != "" && (IsDigit(spelling[0]) || spelling[0] == '.')
  {
  }

  lemma NumberIsParsed(spelling: string, st: State, r: string, strtod: Strtod)
    requires Ready(st) && Scanned(spelling, strtod) && Ends(r) && SkipSpace(st.rest) == spelling + r
    ensures Parses(ParsePrimary(st, strtod), Atom(NumberOf(spelling)), 0, st, r)
  {
    NumberStarts(spelling, strtod);
    assert (spelling + r)[0] == spelling[0];
    MatchNothing(st, "(");
    SkipTwice(st.rest);
    NumberIsRead(spelling, Tight(st), r, strtod);
    hide ParseNumber, Match, ParseName, ParseNamed, NumberOf, Scanned;
    EmitAtom(NumberOf(spelling), st, r);
    assert Tight(st).(rest := r) == st.(rest := r);
  }

  lemma NoNumber(st: State, strtod: Strtod)
    requires var s := SkipSpace(st.rest); s != "" && IsAlpha(s[0])
    ensures ParseNumber(Tight(st), strtod) == (-1, Tight(st)) && Match(st, "(") == (false, Tight(st))
  {
    SkipTwice(st.rest);
    MatchNothing(st, "(");
    hide ParsePrefixed, ParseDecimal, SkipSpace;
  }

  /** A word is not taken for a parenthesis or a number. */
  lemma WordIsReached(w: Word, st: State, r: string, strtod: Strtod)
    requires BlankWord(w) && (r == "" || !IsWord(r[0])) && SkipSpace(st.rest) == Spelled(w) + r && !st.failed
    requires IsIdentifier(w.name) && w.name != "Math"
    ensures ParsePrimary(st, strtod) == ParseNamed(w.name, st.(rest := r), strtod)
  {
    assert IsAlpha((Spelled(w) + r)[0]);
    NoNumber(st, strtod);
    SkipTwice(st.rest);
    hide ParseNumber, ParseName, ParseNamed, SkipSpace, Match, Spelled, IsIdentifier, IsWord, IsAlpha, BlankWord;
    WordIsRead(w, Tight(st), r);
    assert Tight(st).(rest := r) == st.(rest := r);
  }

  lemma LeafIsNamed(name: string, leaf: Leaf)
    requires name in LeafNames(leaf)
    ensures Named(name) == Value(leaf)
  {
  }

  lemma VariableIsParsed(w: Word, leaf: Leaf, st: State, r: string, strtod: Strtod)
    requires Ready(st) && BlankWord(w) && w.name in LeafNames(leaf) && Ends(r) && SkipSpace(st.rest) == Spelled(w) + r
    ensures Parses(ParsePrimary(st, strtod), Atom(leaf), 0, st, r)
  {
    ProperNames(w.name, leaf, Sin, Atan2, Clamp);
    LeafIsNamed(w.name, leaf);
    hide LeafNames, Named, ParsePrimary, Parses, Spelled, SkipSpace;
    WordIsReached(w, st, r, strtod);
    EmitAtom(leaf, st, r);
  }

  // ------------------------------------------------ productions, one at a time
  // Each lemma assumes how the parts of a text are parsed and concludes how the whole is.

  lemma ParenthesesAreParsed(e: Expr, nesting: nat, text: string, st: State, r: string, strtod: Strtod)
    requires Ready(st) && SkipSpace(st.rest) == "(" + text
    requires var inside := State(text, st.nodes, st.depth + 1, false);
             st.depth < MAX_DEPTH ==> Parses(ParseConditional(inside, strtod), e, nesting, inside, ")" + r)
    ensures Parses(ParsePrimary(st, strtod), e, nesting + 1, st, r)
  {
    hide Flat, Match, ParseConditional, ParseNumber, ParseName, ParseNamed, Size;
    MatchToken(st, "(", text);
    if st.depth < MAX_DEPTH {
      var inside := State(text, st.nodes, st.depth + 1, false);
      var (node, st2) := ParseConditional(inside, strtod);
      MatchKeepsFailure(st2.(depth := st2.depth - 1), ")");
      if Fits(e, nesting, inside) {
        var done := After(e, inside, ")" + r);
        NoBlank(")" + r);
        assert Same(st2.(depth := st2.depth - 1), done.(depth := st.depth));
        MatchAfter(st2.(depth := st2.depth - 1), done.(depth := st.depth), ")", r);
      }
    }
  }

  /** One argument of a call, and the comma after it unless it is the last. */
  lemma ArgumentIsParsed(e: Expr, nesting: nat, left: nat, args: seq<int>, st: State, r: string, strtod: Strtod)
    requires Ready(st) && left > 0
    requires Parses(ParseConditional(st, strtod), e, nesting, st, if left == 1 then r else "," + r)
    ensures var result := ParseArguments(left, args, st, strtod);
            if !Fits(e, nesting, st) then result.0 == args && result.1.failed
            else if left == 1 then result.0 == args + [Root(e, st)] && Same(result.1, After(e, st, r))
            else result == ParseArguments(left - 1, args + [Root(e, st)], After(e, st, r), strtod)
  {
    hide Flat;
    if left > 1 && Fits(e, nesting, st) {
      NoBlank("," + r);
      MatchAfter(ParseConditional(st, strtod).1, After(e, st, "," + r), ",", r);
      assert After(e, st, "," + r).(rest := r) == After(e, st, r);
    }
  }

  /** From the arguments to the call: the closing parenthesis and the node, or the failure of an argument. */
  lemma CallCloses(name: string, text: string, st: State, args: seq<int>, st2: State, r: string, strtod: Strtod)
    requires var m := Named(name); !m.Value? && !m.Unknown?
    requires SkipSpace(st.rest) == "(" + text
    requires ParseArguments(Arity(Named(name)), [], st.(rest := text), strtod) == (args, st2)
    ensures |args| < Arity(Named(name)) && st2.failed ==> Refused(ParseNamed(name, st, strtod))
    ensures |args| == Arity(Named(name)) && SkipSpace(st2.rest) == ")" + r ==>
              ParseNamed(name, st, strtod) == Emit(st2.(rest := r), CallNode(Named(name), args))
  {
    hide Named, ParseArguments, CallNode, Emit;
    MatchToken(st, "(", text);
    if SkipSpace(st2.rest) == ")" + r { MatchToken(st2, ")", r); }
  }

  predicate Early(f: Function1) {
    f == Sin || f == Cos || f == Tan || f == Asin || f == Acos || f == Atan || f == Abs || f == Floor
  }

  lemma EarlyIsNamed(name: string, f: Function1)
    requires name in Names1(f) && Early(f)
    ensures Named(name) == Unary1(f)
  {
  }

  predicate Middle(f: Function1) {
    f == Ceil || f == Round || f == Sqrt || f == Log
  }

  lemma MiddleIsNamed(name: string, f: Function1)
    requires name in Names1(f) && Middle(f)
    ensures Named(name) == Unary1(f)
  {
  }

  predicate Late(f: Function1) {
    f == Exp || f == Sign || f == Fract
  }

  lemma LateIsNamed(name: string, f: Function1)
    requires name in Names1(f) && Late(f)
    ensures Named(name) == Unary1(f)
  {
  }

  lemma LastIsNamed(name: string, f: Function1)
    requires name in Names1(f) && (f == Trunc || f == Noise)
    ensures Named(name) == Unary1(f)
  {
  }

  lemma Function1IsNamed(name: string, f: Function1)
    requires name in Names1(f)
    ensures Named(name) == Unary1(f)
  {
    hide Named, Names1;
    if Early(f) { EarlyIsNamed(name, f); }
    else if Middle(f) { MiddleIsNamed(name, f); }
    else if Late(f) { LateIsNamed(name, f); }
    else { LastIsNamed(name, f); }
  }

  lemma Function2IsNamed(name: string, f: Function2)
    requires name in Names2(f)
    ensures Named(name) == Binary2(f)
  {
  }

  lemma Function3IsNamed(name: string, f: Function3)
    requires name in Names3(f)
    ensures Named(name) == Ternary3(f)
  {
  }

  lemma ClosedAfter(e: Expr, st: State, st2: State, r: string)
    requires Same(st2, After(e, st, ")" + r))
    ensures SkipSpace(st2.rest) == ")" + r && st2.(rest := r) == After(e, st, r)
  {
    hide Flat;
    NoBlank(")" + r);
  }

  lemma Call1IsParsed(f: Function1, name: string, a: Expr, na: nat, text: string, st: State, r: string, strtod: Strtod)
    requires Ready(st) && name in Names1(f) && SkipSpace(st.rest) == "(" + text
    requires var sa := st.(rest := text); Parses(ParseConditional(sa, strtod), a, na, sa, ")" + r)
    ensures Parses(ParseNamed(name, st, strtod), One(Call1(f), a), na, st, r)
  {
    hide Flat, Named, ParseNamed, ParseConditional, ParseArguments, Emit, Names1, SkipSpace;
    Function1IsNamed(name, f);
    var sa := st.(rest := text);
    ArgumentIsParsed(a, na, 1, [], sa, ")" + r, strtod);
    var (args, st2) := ParseArguments(1, [], sa, strtod);
    CallCloses(name, text, st, args, st2, r, strtod);
    if Fits(a, na, sa) { Call1Done(f, name, a, st, text, args, st2, r, strtod); }
  }

  lemma Call1Done(f: Function1, name: string, a: Expr, st: State, text: string, args: seq<int>, st2: State, r: string,
                  strtod: Strtod)
    requires Ready(st) && |st.nodes| + Size(a) <= MAX_NODES
    requires args == [Root(a, st)] && Same(st2, After(a, st.(rest := text), ")" + r))
    requires SkipSpace(st2.rest) == ")" + r ==>
               ParseNamed(name, st, strtod) == Emit(st2.(rest := r), CallNode(Unary1(f), args))
    ensures var (e, result) := (One(Call1(f), a), ParseNamed(name, st, strtod));
            if |st.nodes| + Size(e) <= MAX_NODES then result == (Root(e, st), After(e, st, r)) else Refused(result)
  {
    hide Flat, ParseNamed, Emit, SkipSpace;
    ClosedAfter(a, st.(rest := text), st2, r);
    assert After(a, st.(rest := text), r) == After(a, st, r);
    EmitOne(a, Call1(f), st, r);
  }

  lemma Call2IsParsed(f: Function2, name: string, a: Expr, na: nat, ta: string, b: Expr, nb: nat, tb: string,
                      st: State, r: string, strtod: Strtod)
    requires Ready(st) && name in Names2(f) && SkipSpace(st.rest) == "(" + ta
    requires var sa := st.(rest := ta); Parses(ParseConditional(sa, strtod), a, na, sa, "," + tb)
    requires var sb := After(a, st, tb); Fits(a, na, st) ==> Parses(ParseConditional(sb, strtod), b, nb, sb, ")" + r)
    ensures Parses(ParseNamed(name, st, strtod), Two(Call2(f), a, b), Larger(na, nb), st, r)
  {
    hide Flat, Named, ParseNamed, ParseConditional, ParseArguments, Emit, Names2, SkipSpace;
    Function2IsNamed(name, f);
    var sa, sb := st.(rest := ta), After(a, st, tb);
    ArgumentIsParsed(a, na, 2, [], sa, tb, strtod);
    var (args, st2) := ParseArguments(2, [], sa, strtod);
    CallCloses(name, ta, st, args, st2, r, strtod);
    if Fits(a, na, sa) {
      assert After(a, sa, tb) == sb && [] + [Root(a, sa)] == [Root(a, st)];
      ArgumentIsParsed(b, nb, 1, [Root(a, st)], sb, ")" + r, strtod);
      if Fits(b, nb, sb) { Call2Done(f, name, a, b, st, tb, args, st2, r, strtod); }
    }
  }

  lemma Call2Done(f: Function2, name: string, a: Expr, b: Expr, st: State, tb: string, args: seq<int>, st2: State,
                  r: string, strtod: Strtod)
    requires Ready(st) && |st.nodes| + Size(a) + Size(b) <= MAX_NODES
    requires var sb := After(a, st, tb); args == [Root(a, st)] + [Root(b, sb)] && Same(st2, After(b, sb, ")" + r))
    requires SkipSpace(st2.rest) == ")" + r ==>
               ParseNamed(name, st, strtod) == Emit(st2.(rest := r), CallNode(Binary2(f), args))
    ensures var (e, result) := (Two(Call2(f), a, b), ParseNamed(name, st, strtod));
            if |st.nodes| + Size(e) <= MAX_NODES then result == (Root(e, st), After(e, st, r)) else Refused(result)
  {
    hide Flat, ParseNamed, Emit, SkipSpace;
    ClosedAfter(b, After(a, st, tb), st2, r);
    EmitTwo(a, b, Call2(f), st, tb, r);
  }

  lemma LastTwoArguments(first: int, b: Expr, nb: nat, c: Expr, nc: nat, sb: State, tc: string, r: string, strtod: Strtod)
    requires Ready(sb) && Parses(ParseConditional(sb, strtod), b, nb, sb, "," + tc)
    requires var sc := After(b, sb, tc); Fits(b, nb, sb) ==> Parses(ParseConditional(sc, strtod), c, nc, sc, ")" + r)
    ensures var (sc, result) := (After(b, sb, tc), ParseArguments(2, [first], sb, strtod));
            if Fits(b, nb, sb) && Fits(c, nc, sc) then
              result.0 == [first, Root(b, sb), Root(c, sc)] && Same(result.1, After(c, sc, ")" + r))
            else |result.0| < 3 && result.1.failed
  {
    hide Flat, ParseConditional, ParseArguments, SkipSpace;
    var sc := After(b, sb, tc);
    ArgumentIsParsed(b, nb, 2, [first], sb, tc, strtod);
    if Fits(b, nb, sb) {
      assert [first] + [Root(b, sb)] == [first, Root(b, sb)];
      ArgumentIsParsed(c, nc, 1, [first, Root(b, sb)], sc, ")" + r, strtod);
      assert [first, Root(b, sb)] + [Root(c, sc)] == [first, Root(b, sb), Root(c, sc)];
    }
  }

  lemma Call3IsParsed(f: Function3, name: string, a: Expr, na: nat, ta: string, b: Expr, nb: nat, tb: string,
                      c: Expr, nc: nat, tc: string, st: State, r: string, strtod: Strtod)
    requires Ready(st) && name in Names3(f) && SkipSpace(st.rest) == "(" + ta
    requires var sa := st.(rest := ta); Parses(ParseConditional(sa, strtod), a, na, sa, "," + tb)
    requires var sb := After(a, st, tb); Fits(a, na, st) ==> Parses(ParseConditional(sb, strtod), b, nb, sb, "," + tc)
    requires var sb := After(a, st, tb);
             var sc := After(b, sb, tc);
             Fits(a, na, st) && Fits(b, nb, sb) ==> Parses(ParseConditional(sc, strtod), c, nc, sc, ")" + r)
    ensures Parses(ParseNamed(name, st, strtod), Three(Call3(f), a, b, c), Larger(Larger(na, nb), nc), st, r)
  {
    hide Flat, Named, Names3, ParseNamed, ParseConditional, ParseArguments, Emit, SkipSpace;
    Function3IsNamed(name, f);
    var sa, sb := st.(rest := ta), After(a, st, tb);
    var sc := After(b, sb, tc);
    ArgumentIsParsed(a, na, 3, [], sa, tb, strtod);
    var (args, st2) := ParseArguments(3, [], sa, strtod);
    CallCloses(name, ta, st, args, st2, r, strtod);
    if Fits(a, na, sa) {
      assert After(a, sa, tb) == sb && [] + [Root(a, sa)] == [Root(a, st)];
      LastTwoArguments(Root(a, st), b, nb, c, nc, sb, tc, r, strtod);
      if Fits(b, nb, sb) && Fits(c, nc, sc) { Call3Done(f, name, a, b, c, nc, st, tb, tc, args, st2, r, strtod); }
    }
  }

  lemma Call3Done(f: Function3, name: string, a: Expr, b: Expr, c: Expr, nc: nat, st: State, tb: string, tc: string,
                  args: seq<int>, st2: State, r: string, strtod: Strtod)
    requires Ready(st) && |st.nodes| + Size(a) + Size(b) + Size(c) <= MAX_NODES
    requires var sb := After(a, st, tb);
             var sc := After(b, sb, tc);
             args == [Root(a, st), Root(b, sb), Root(c, sc)] && Same(st2, After(c, sc, ")" + r))
    requires SkipSpace(st2.rest) == ")" + r ==>
               ParseNamed(name, st, strtod) == Emit(st2.(rest := r), CallNode(Ternary3(f), args))
    ensures var (e, result) := (Three(Call3(f), a, b, c), ParseNamed(name, st, strtod));
            if |st.nodes| + Size(e) <= MAX_NODES then result == (Root(e, st), After(e, st, r)) else Refused(result)
  {
    hide Flat, ParseNamed, Emit, SkipSpace;
    ClosedAfter(c, After(b, After(a, st, tb), tc), st2, r);
    EmitThree(a, b, c, Call3(f), st, tb, tc, r);
  }

  lemma PrefixIsRead(op: UnaryOp, text: string)
    requires text != "" && Fresh(text[0])
    ensures var t := [PrefixToken(op)] + text;
            PrefixAt(t) == Some(op) && !IsSpace(t[0]) && t[1..] == text
  {
    var t := [PrefixToken(op)] + text;
    assert t[0] == PrefixToken(op) && t[1] == text[0] && t[..1] == [t[0]];
  }

  lemma PrefixStep(op: UnaryOp, text: string, st: State, strtod: Strtod)
    requires SkipSpace(st.rest) == [PrefixToken(op)] + text && text != "" && Fresh(text[0])
    ensures var (child, st1) := ParseUnary(st.(rest := text), strtod);
            ParseUnary(st, strtod) == if child < 0 then (-1, st1) else Emit(st1, Node(K1(Prefix(op)), child, -1, -1))
  {
    PrefixIsRead(op, text);
    hide PrefixAt, SkipSpace, PrefixToken, Fresh, ParsePrimary, Emit;
  }

  lemma PrefixIsParsed(op: UnaryOp, a: Expr, nesting: nat, text: string, st: State, r: string, strtod: Strtod)
    requires Ready(st) && SkipSpace(st.rest) == [PrefixToken(op)] + text && text != "" && Fresh(text[0])
    requires var sa := st.(rest := text); Parses(ParseUnary(sa, strtod), a, nesting, sa, r)
    ensures Parses(ParseUnary(st, strtod), One(Prefix(op), a), nesting, st, r)
  {
    hide Flat, PrefixToken, ParseUnary, Fresh, SkipSpace, Emit;
    var sa := st.(rest := text);
    PrefixStep(op, text, st, strtod);
    if Fits(a, nesting, sa) {
      var (child, st1) := ParseUnary(sa, strtod);
      assert After(a, sa, r) == After(a, st, r);
      EmitSame(st1, After(a, st, r), Node(K1(Prefix(op)), Root(a, st), -1, -1));
      EmitOne(a, Prefix(op), st, r);
    }
  }

  lemma UnaryPasses(e: Expr, nesting: nat, st: State, r: string, strtod: Strtod)
    requires Ready(st) && PrefixAt(SkipSpace(st.rest)) == None
    requires Parses(ParsePrimary(st, strtod), e, nesting, st, r)
    ensures Parses(ParseUnary(st, strtod), e, nesting, st, r)
  {
    PrimarySkips(st, strtod);
    hide PrefixAt, SkipSpace, Parses, ParsePrimary;
  }

  lemma PowerIsParsed(a: Expr, na: nat, b: Expr, nb: nat, tb: string, st: State, r: string, strtod: Strtod)
    requires Ready(st) && Parses(ParseUnary(st, strtod), a, na, st, "**" + tb)
    requires var sb := After(a, st, tb); Fits(a, na, st) ==> Parses(ParsePower(sb, strtod), b, nb, sb, r)
    ensures Parses(ParsePower(st, strtod), Two(Infix(Power), a, b), Larger(na, nb), st, r)
  {
    hide Flat, ParseUnary, Emit, Match, SkipSpace;
    if Fits(a, na, st) {
      var sb := After(a, st, tb);
      NoBlank("**" + tb);
      MatchAfter(ParseUnary(st, strtod).1, After(a, st, "**" + tb), "**", tb);
      assert After(a, st, "**" + tb).(rest := tb) == sb;
      if Fits(b, nb, sb) {
        EmitSame(ParsePower(sb, strtod).1, After(b, sb, r), Node(K2(Infix(Power)), Root(a, st), Root(b, sb), -1));
        EmitTwo(a, b, Infix(Power), st, tb, r);
      }
    }
  }

  lemma PowerPasses(e: Expr, nesting: nat, st: State, r: string, strtod: Strtod)
    requires Ready(st) && !Starts(SkipSpace(r), "**")
    requires Parses(ParseUnary(st, strtod), e, nesting, st, r)
    ensures Parses(ParsePower(st, strtod), e, nesting, st, r)
  {
    hide Flat, ParseUnary;
    var st1 := ParseUnary(st, strtod).1;
    if Fits(e, nesting, st) {
      MatchNothing(st1, "**");
      SkipTwice(st1.rest);
    }
  }

  lemma ConditionalIsParsed(a: Expr, na: nat, b: Expr, nb: nat, tb: string, c: Expr, nc: nat, tc: string,
                            st: State, r: string, strtod: Strtod)
    requires Ready(st) && Parses(ParseLeft(1, st, strtod), a, na, st, "?" + tb)
    requires var sb := After(a, st, tb); Fits(a, na, st) ==> Parses(ParseConditional(sb, strtod), b, nb, sb, ":" + tc)
    requires var sb := After(a, st, tb);
             var sc := After(b, sb, tc);
             Fits(a, na, st) && Fits(b, nb, sb) ==> Parses(ParseConditional(sc, strtod), c, nc, sc, r)
    ensures Parses(ParseConditional(st, strtod), Three(Conditional, a, b, c), Larger(Larger(na, nb), nc), st, r)
  {
    hide Flat, ParseLeft, Emit, Match, SkipSpace;
    var sb := After(a, st, tb);
    var sc := After(b, sb, tc);
    if Fits(a, na, st) {
      NoBlank("?" + tb);
      MatchAfter(ParseLeft(1, st, strtod).1, After(a, st, "?" + tb), "?", tb);
      assert After(a, st, "?" + tb).(rest := tb) == sb;
      if Fits(b, nb, sb) {
        NoBlank(":" + tc);
        MatchAfter(ParseConditional(sb, strtod).1, After(b, sb, ":" + tc), ":", tc);
        assert After(b, sb, ":" + tc).(rest := tc) == sc;
        if Fits(c, nc, sc) {
          EmitSame(ParseConditional(sc, strtod).1, After(c, sc, r),
                   Node(K3(Conditional), Root(a, st), Root(b, sb), Root(c, sc)));
          EmitThree(a, b, c, Conditional, st, tb, tc, r);
        }
      }
    }
  }

  lemma ConditionalPasses(e: Expr, nesting: nat, st: State, r: string, strtod: Strtod)
    requires Ready(st) && !Starts(SkipSpace(r), "?")
    requires Parses(ParseLeft(1, st, strtod), e, nesting, st, r)
    ensures Parses(ParseConditional(st, strtod), e, nesting, st, r)
  {
    hide Flat, ParseLeft;
    var st1 := ParseLeft(1, st, strtod).1;
    if Fits(e, nesting, st) {
      MatchNothing(st1, "?");
      SkipTwice(st1.rest);
    }
  }

  /** At a left-associative level, e is parsed off the front and the loop goes on from there. */
  predicate LoopsOn(level: nat, e: Expr, nesting: nat, st: State, r: string, strtod: Strtod)
    requires 1 <= level <= 10
  {
    if Fits(e, nesting, st) then ParseLeft(level, st, strtod) == LeftLoop(level, Root(e, st), After(e, st, r), strtod)
    else Refused(ParseLeft(level, st, strtod))
  }

  lemma LoopStarts(level: nat, e: Expr, nesting: nat, st: State, r: string, strtod: Strtod)
    requires 1 <= level <= 10 && Ready(st)
    requires Parses(ParseTighter(level, st, strtod), e, nesting, st, r)
    ensures LoopsOn(level, e, nesting, st, r, strtod)
  {
    hide Flat, LeftLoop, ParseTighter, SkipSpace;
    if Fits(e, nesting, st) {
      SameLoop(level, Root(e, st), ParseTighter(level, st, strtod).1, After(e, st, r), strtod);
    }
  }

  lemma LoopTurns(op: BinaryOp, strict: bool, a: Expr, na: nat, b: Expr, nb: nat, tb: string, st: State, r1: string,
                  r: string, strtod: Strtod)
    requires op != Power && Ready(st) && tb != "" && Fresh(tb[0])
    requires SkipSpace(r1) == InfixToken(op, strict) + tb
    requires LoopsOn(OperatorLevel(op), a, na, st, r1, strtod)
    requires var sb := After(a, st, tb);
             Fits(a, na, st) ==> Parses(ParseTighter(OperatorLevel(op), sb, strtod), b, nb, sb, r)
    ensures LoopsOn(OperatorLevel(op), Two(Infix(op), a, b), Larger(na, nb), st, r, strtod)
  {
    hide Flat, ParseTighter, Emit, SkipSpace, ParseLeft;
    var l, e, sb := OperatorLevel(op), Two(Infix(op), a, b), After(a, st, tb);
    TokenIsRead(op, strict, tb);
    hide OperatorAt, InfixToken, NothingAt;
    if Fits(a, na, st) {
      var st1 := After(a, st, r1);
      assert st1.(rest := tb) == sb;
      LoopStep(l, op, |InfixToken(op, strict)|, Root(a, st), st1, tb, strtod);
      if Fits(b, nb, sb) {
        var node := Node(K2(Infix(op)), Root(a, st), Root(b, sb), -1);
        var done := ParseTighter(l, sb, strtod).1;
        EmitSame(done, After(b, sb, r), node);
        EmitTwo(a, b, Infix(op), st, tb, r);
        if |st.nodes| + Size(e) <= MAX_NODES { SameLoop(l, Root(e, st), Emit(done, node).1, After(e, st, r), strtod); }
        hide LeftLoop;
      }
    }
  }

  /** One turn of the loop. */
  lemma LoopStep(level: nat, op: BinaryOp, n: nat, left: int, st: State, text: string, strtod: Strtod)
    requires 1 <= level <= 10 && n <= |SkipSpace(st.rest)| && SkipSpace(st.rest)[n..] == text
    requires OperatorAt(level, SkipSpace(st.rest)) == Some((op, n))
    ensures var (right, st1) := ParseTighter(level, st.(rest := text), strtod);
            LeftLoop(level, left, st, strtod) ==
              if right < 0 then (-1, st1)
              else
                var (node, st2) := Emit(st1, Node(K2(Infix(op)), left, right, -1));
                if node < 0 then (-1, st2) else LeftLoop(level, node, st2, strtod)
  {
    hide SkipSpace, OperatorAt, ParseTighter, Emit;
  }

  lemma LoopEnds(level: nat, e: Expr, nesting: nat, st: State, r: string, strtod: Strtod)
    requires 1 <= level <= 10 && Ready(st) && OperatorAt(level, SkipSpace(r)).None?
    requires LoopsOn(level, e, nesting, st, r, strtod)
    ensures Parses(ParseLeft(level, st, strtod), e, nesting, st, r)
  {
    hide Flat, OperatorAt, ParseLeft;
    SkipTwice(r);
  }

  lemma NothingTighter(level: nat, r: string)
    requires NothingAt(level, r)
    ensures NothingAt(level + 1, r)
  {
  }

  lemma NothingNow(level: nat, r: string)
    requires NothingAt(level, r)
    ensures 1 <= level <= 10 ==> OperatorAt(level, r).None?
    ensures (level == 11 ==> !Starts(r, "**")) && (level == 0 ==> !Starts(r, "?"))
  {
  }

  lemma BeforeExponent(s: string)
    ensures Ends("**" + s) && NothingAt(12, "**" + s)
  {
  }

  lemma BeforeQuestion(s: string)
    ensures Ends("?" + s) && NothingAt(1, "?" + s)
  {
  }

  // --------------------------------------------------------- the round trip

  /** x is written at the front of the text, and what follows cannot prolong it. */
  ghost predicate Written(x: Syntax, level: nat, st: State, r: string, tighter: nat, strtod: Strtod) {
    && level <= 13 && level <= Level(x) && WellWritten(x, strtod) && Ready(st)
    && st.rest == Text(x) + r && Ends(r) && NothingAt(tighter, SkipSpace(r))
  }

  // How deep the proof still has to go: into the parts of x, and from a level to the one x is written for.

  function Rank(x: Syntax, level: nat): nat
    requires level <= Level(x)
  {
    Level(x) - level
  }

  /** Every production reads exactly what is written for its level, or fails when a limit is exceeded. */
  lemma {:induction false} Exact(x: Syntax, level: nat, st: State, r: string, strtod: Strtod)
    requires Written(x, level, st, r, level, strtod)
    ensures Parses(Production(level, st, strtod), Meant(x), Nesting(x), st, r)
    decreases x, Rank(x, level), 3
  {
    hide Text, Parses, ParseConditional, ParseLeft, ParsePower, ParseUnary, ParsePrimary, LoopsOn, OperatorAt, Ends,
      NothingAt, Starts, WellWritten, SkipSpace;
    NothingNow(level, SkipSpace(r));
    if 1 <= level <= 10 {
      NothingTighter(level, SkipSpace(r));
      Loopy(x, level, st, r, strtod);
      LoopEnds(level, Meant(x), Nesting(x), st, r, strtod);
    } else if level == Level(x) {
      ExactHere(x, st, r, strtod);
    } else {
      NothingTighter(level, SkipSpace(r));
      Exact(x, level + 1, st, r, strtod);
      if level == 0 { ConditionalPasses(Meant(x), Nesting(x), st, r, strtod); }
      if level == 11 { PowerPasses(Meant(x), Nesting(x), st, r, strtod); }
      if level == 12 {
        PrimaryOpens(x, st, r, strtod);
        UnaryPasses(Meant(x), Nesting(x), st, r, strtod);
      }
    }
  }

  /** What is written at the tightest level does not begin with a prefix operator. */
  lemma PrimaryOpens(x: Syntax, st: State, r: string, strtod: Strtod)
    requires WellWritten(x, strtod) && Level(x) == 13 && st.rest == Text(x) + r
    ensures PrefixAt(SkipSpace(st.rest)) == None
  {
    var blank, s := Opening(x, r, strtod);
    assert st.rest == blank + s;
    SkipsBlank(blank, s);
    NoBlank(s);
  }

  /** The blanks at the front of a primary's text, and what follows them. */
  lemma Opening(x: Syntax, r: string, strtod: Strtod) returns (blank: string, s: string)
    requires WellWritten(x, strtod) && Level(x) == 13
    ensures Text(x) + r == blank + s && Blank(blank) && s != ""
    ensures IsAlpha(s[0]) || IsDigit(s[0]) || s[0] == '.' || s[0] == '('
  {
    match x {
      case Number(before, spelling) =>
        NumberStarts(spelling, strtod);
        blank, s := before, spelling + r;
      case Variable(word, leaf) =>
        ProperNames(word.name, leaf, Sin, Atan2, Clamp);
        blank, s := word.blank, Spelled(word) + r;
        WordSplits(word, r);
      case Grouped(open, inner, close) => blank, s := open, "(" + (Text(inner) + (close + ")")) + r;
      case Apply1(f, word, _, _, _) =>
        ProperNames(word.name, SampleIndex, f, Atan2, Clamp);
        blank, s := WordFront(word, Text(x), r);
      case Apply2(f, word, _, _, _, _, _) =>
        ProperNames(word.name, SampleIndex, Sin, f, Clamp);
        blank, s := WordFront(word, Text(x), r);
      case Apply3(f, word, _, _, _, _, _, _, _) =>
        ProperNames(word.name, SampleIndex, Sin, Atan2, f);
        blank, s := WordFront(word, Text(x), r);
    }
  }

  lemma WordSplits(w: Word, r: string)
    ensures WordText(w) + r == w.blank + (Spelled(w) + r)
  {
  }

  lemma WordFront(w: Word, text: string, r: string) returns (blank: string, s: string)
    requires BlankWord(w) && IsIdentifier(w.name) && WordText(w) <= text
    ensures text + r == blank + s && Blank(blank) && s != "" && IsAlpha(s[0])
  {
    var rest := text[|WordText(w)|..] + r;
    assert text + r == WordText(w) + rest;
    WordSplits(w, rest);
    blank, s := w.blank, Spelled(w) + rest;
  }

  lemma {:induction false} Loopy(x: Syntax, level: nat, st: State, r: string, strtod: Strtod)
    requires 1 <= level <= 10 && Written(x, level, st, r, level + 1, strtod)
    ensures LoopsOn(level, Meant(x), Nesting(x), st, r, strtod)
    decreases x, Rank(x, level), 2
  {
    hide Text, Parses, LoopsOn, Ends, NothingAt, ParseLeft, ParsePower, WellWritten, SkipSpace;
    if level == Level(x) {
      LoopyHere(x, st, r, strtod);
    } else {
      Exact(x, level + 1, st, r, strtod);
      assert ParseTighter(level, st, strtod) == Production(level + 1, st, strtod);
      LoopStarts(level, Meant(x), Nesting(x), st, r, strtod);
    }
  }

  lemma BinaryText(a: Syntax, blank: string, op: BinaryOp, strict: bool, b: Syntax, r: string)
    ensures Text(Binary(a, blank, op, strict, b)) + r == Text(a) + (blank + (InfixToken(op, strict) + (Text(b) + r)))
  {
    hide InfixToken;
    assert Text(Binary(a, blank, op, strict, b)) == Text(a) + (blank + (InfixToken(op, strict) + Text(b)));
    hide Text;
    InwardTwice(Text(a), blank, InfixToken(op, strict), Text(b), r);
  }

  lemma BeforeOperand(blank: string, op: BinaryOp, strict: bool, b: Syntax, r: string, strtod: Strtod)
    requires Blank(blank) && WellWritten(b, strtod)
    ensures var (t, tb) := (InfixToken(op, strict), Text(b) + r);
            && tb != "" && Fresh(tb[0]) && Ends(blank + (t + tb)) && SkipSpace(blank + (t + tb)) == t + tb
            && (op != Power ==> NothingAt(OperatorLevel(op) + 1, t + tb)) && (op == Power ==> NothingAt(12, t + tb))
  {
    TextOpens(b, strtod);
    var (t, tb) := (InfixToken(op, strict), Text(b) + r);
    assert tb[0] == Text(b)[0];
    if op == Power { BeforeExponent(tb); } else { TokenIsRead(op, strict, tb); }
    assert !IsSpace((t + tb)[0]);
    AfterBlank(blank, t + tb);
    BlankIsFresh(blank, t + tb);
    hide Text, NothingAt, InfixToken, SkipSpace;
  }

  lemma {:induction false} LoopyHere(x: Syntax, st: State, r: string, strtod: Strtod)
    requires 1 <= Level(x) <= 10 && Written(x, Level(x), st, r, Level(x) + 1, strtod)
    ensures LoopsOn(Level(x), Meant(x), Nesting(x), st, r, strtod)
    decreases x, 0, 0
  {
    var (a, b, op) := (x.a, x.b, x.op);
    var l := OperatorLevel(op);
    BinaryText(a, x.blank, op, x.strict, b, r);
    BeforeOperand(x.blank, op, x.strict, b, r, strtod);
    var tb := Text(b) + r;
    var r1 := x.blank + (InfixToken(op, x.strict) + tb);
    assert WellWritten(a, strtod) && WellWritten(b, strtod) && Level(a) >= l && Level(b) > l;
    hide Text, Parses, LoopsOn, Flat, Ends, NothingAt, InfixToken, ParseLeft, ParsePower, WellWritten, SkipSpace, Fresh;
    Loopy(a, l, st, r1, strtod);
    var sb := After(Meant(a), st, tb);
    if Fits(Meant(a), Nesting(a), st) {
      Exact(b, l + 1, sb, r, strtod);
      assert ParseTighter(l, sb, strtod) == Production(l + 1, sb, strtod);
    }
    LoopTurns(op, x.strict, Meant(a), Nesting(a), Meant(b), Nesting(b), tb, st, r1, r, strtod);
  }

  /** An expression where the production of its own level, not a left-associative one, is expected. */
  lemma {:induction false} ExactHere(x: Syntax, st: State, r: string, strtod: Strtod)
    requires Written(x, Level(x), st, r, Level(x), strtod) && !(1 <= Level(x) <= 10)
    ensures Parses(Production(Level(x), st, strtod), Meant(x), Nesting(x), st, r)
    decreases x, 0, 1
  {
    hide Text, Parses, ParseConditional, ParseLeft, ParsePower, ParseUnary, ParsePrimary, Ends, NothingAt, WellWritten,
      SkipSpace;
    match x {
      case Number(_, _) => ExactNumber(x, st, r, strtod);
      case Variable(_, _) => ExactVariable(x, st, r, strtod);
      case Grouped(_, _, _) => ExactGrouped(x, st, r, strtod);
      case Prefixed(_, _, _) => ExactPrefixed(x, st, r, strtod);
      case Binary(_, _, _, _, _) => ExactPower(x, st, r, strtod);
      case Choice(_, _, _, _, _) => ExactChoice(x, st, r, strtod);
      case Apply1(_, _, _, _, _) => ExactApply1(x, st, r, strtod);
      case Apply2(_, _, _, _, _, _, _) => ExactApply2(x, st, r, strtod);
      case Apply3(_, _, _, _, _, _, _, _, _) => ExactApply3(x, st, r, strtod);
    }
  }

  lemma ExactNumber(x: Syntax, st: State, r: string, strtod: Strtod)
    requires x.Number? && Written(x, 13, st, r, 13, strtod)
    ensures Parses(ParsePrimary(st, strtod), Meant(x), Nesting(x), st, r)
  {
    NumberStarts(x.spelling, strtod);
    var s := x.spelling + r;
    assert st.rest == x.blank + s && s[0] == x.spelling[0];
    AfterBlank(x.blank, s);
    hide ParsePrimary, Parses, NumberOf, Scanned, SkipSpace;
    NumberIsParsed(x.spelling, st, r, strtod);
  }

  lemma ExactVariable(x: Syntax, st: State, r: string, strtod: Strtod)
    requires x.Variable? && Written(x, 13, st, r, 13, strtod)
    ensures Parses(ParsePrimary(st, strtod), Meant(x), Nesting(x), st, r)
  {
    WordAfterBlank(x.word, x.leaf, Sin, Atan2, Clamp, r);
    hide ParsePrimary, Parses, SkipSpace, WordText, Spelled;
    VariableIsParsed(x.word, x.leaf, st, r, strtod);
  }

  lemma WordAfterBlank(w: Word, leaf: Leaf, f1: Function1, f2: Function2, f3: Function3, r: string)
    requires BlankWord(w)
    requires w.name in LeafNames(leaf) || w.name in Names1(f1) || w.name in Names2(f2) || w.name in Names3(f3)
    ensures SkipSpace(WordText(w) + r) == Spelled(w) + r
  {
    ProperNames(w.name, leaf, f1, f2, f3);
    WordSplits(w, r);
    assert IsAlpha((Spelled(w) + r)[0]);
    AfterBlank(w.blank, Spelled(w) + r);
  }

  lemma GroupedText(open: string, inner: Syntax, close: string, r: string)
    ensures Text(Grouped(open, inner, close)) + r == open + ("(" + (Text(inner) + (close + (")" + r))))
  {
    var t := Text(inner) + (close + ")");
    assert Text(Grouped(open, inner, close)) == open + ("(" + t);
    hide Text;
    Inward(open, "(", t, r);
    Inward(Text(inner), close, ")", r);
  }

  /** Text before a closing character: blanks, the character, the rest. */
  lemma BeforeClosing(blank: string, c: string, r: string)
    requires Blank(blank) && (c == ")" || c == "," || c == ":")
    ensures Ends(blank + (c + r)) && SkipSpace(blank + (c + r)) == c + r && NothingAt(0, c + r)
  {
    assert (c + r)[0] == c[0];
    ClosedByPunctuation(c + r);
    AfterBlank(blank, c + r);
    BlankIsFresh(blank, c + r);
    hide NothingAt, SkipSpace;
  }

  lemma ParsesBeforeBlank(result: (int, State), e: Expr, nesting: nat, st: State, r1: string, r: string)
    requires Parses(result, e, nesting, st, r1) && SkipSpace(r1) == SkipSpace(r)
    ensures Parses(result, e, nesting, st, r)
  {
    hide Flat, SkipSpace;
  }

  lemma {:induction false} ExactGrouped(x: Syntax, st: State, r: string, strtod: Strtod)
    requires x.Grouped? && Written(x, 13, st, r, 13, strtod)
    ensures Parses(ParsePrimary(st, strtod), Meant(x), Nesting(x), st, r)
    decreases x, 0, 0
  {
    var inner := x.inner;
    GroupedText(x.open, inner, x.close, r);
    var r1 := x.close + (")" + r);
    var text := Text(inner) + r1;
    AfterBlank(x.open, "(" + text);
    BeforeClosing(x.close, ")", r);
    NoBlank(")" + r);
    assert WellWritten(inner, strtod);
    hide Text, Parses, ParseConditional, ParsePrimary, Ends, NothingAt, WellWritten, SkipSpace;
    if st.depth < MAX_DEPTH {
      var inside := State(text, st.nodes, st.depth + 1, false);
      Exact(inner, 0, inside, r1, strtod);
      ParsesBeforeBlank(ParseConditional(inside, strtod), Meant(inner), Nesting(inner), inside, r1, ")" + r);
    }
    ParenthesesAreParsed(Meant(inner), Nesting(inner), text, st, r, strtod);
  }

  lemma PrefixedText(blank: string, op: UnaryOp, a: Syntax, r: string)
    ensures Text(Prefixed(blank, op, a)) + r == blank + ([PrefixToken(op)] + (Text(a) + r))
  {
    hide PrefixToken;
    assert Text(Prefixed(blank, op, a)) == blank + ([PrefixToken(op)] + Text(a));
    hide Text;
    Inward(blank, [PrefixToken(op)], Text(a), r);
  }

  lemma {:induction false} ExactPrefixed(x: Syntax, st: State, r: string, strtod: Strtod)
    requires x.Prefixed? && Written(x, 12, st, r, 12, strtod)
    ensures Parses(ParseUnary(st, strtod), Meant(x), Nesting(x), st, r)
    decreases x, 0, 0
  {
    var (op, a) := (x.prefix, x.a);
    PrefixedText(x.blank, op, a, r);
    TextOpens(a, strtod);
    var text := Text(a) + r;
    assert text[0] == Text(a)[0];
    PrefixIsRead(op, text);
    AfterBlank(x.blank, [PrefixToken(op)] + text);
    assert WellWritten(a, strtod) && Level(a) >= 12;
    hide Text, Parses, ParseUnary, Ends, NothingAt, Fresh, WellWritten, SkipSpace;
    Exact(a, 12, st.(rest := text), r, strtod);
    PrefixIsParsed(op, Meant(a), Nesting(a), text, st, r, strtod);
  }

  lemma {:induction false} ExactPower(x: Syntax, st: State, r: string, strtod: Strtod)
    requires x.Binary? && x.op == Power && Written(x, 11, st, r, 11, strtod)
    ensures Parses(ParsePower(st, strtod), Meant(x), Nesting(x), st, r)
    decreases x, 0, 0
  {
    var (a, b) := (x.a, x.b);
    BinaryText(a, x.blank, Power, x.strict, b, r);
    BeforeOperand(x.blank, Power, x.strict, b, r, strtod);
    var tb := Text(b) + r;
    var r1 := x.blank + ("**" + tb);
    assert r1 == x.blank + (InfixToken(Power, x.strict) + tb);
    NoBlank("**" + tb);
    assert WellWritten(a, strtod) && WellWritten(b, strtod) && Level(a) >= 12 && Level(b) >= 11;
    hide Text, Parses, ParsePower, ParseUnary, Ends, NothingAt, Flat, WellWritten, SkipSpace, InfixToken;
    Exact(a, 12, st, r1, strtod);
    ParsesBeforeBlank(ParseUnary(st, strtod), Meant(a), Nesting(a), st, r1, "**" + tb);
    if Fits(Meant(a), Nesting(a), st) { Exact(b, 11, After(Meant(a), st, tb), r, strtod); }
    PowerIsParsed(Meant(a), Nesting(a), Meant(b), Nesting(b), tb, st, r, strtod);
  }

  lemma ChoiceText(a: Syntax, question: string, b: Syntax, colon: string, c: Syntax, r: string)
    ensures Text(Choice(a, question, b, colon, c)) + r
         == Text(a) + (question + ("?" + (Text(b) + (colon + (":" + (Text(c) + r))))))
  {
    var inner := Text(b) + (colon + (":" + Text(c)));
    assert Text(Choice(a, question, b, colon, c)) == Text(a) + (question + ("?" + inner));
    hide Text;
    InwardTwice(Text(a), question, "?", inner, r);
    InwardTwice(Text(b), colon, ":", Text(c), r);
  }

  /** What comes after an operand: blanks, a comma, a colon or the closing parenthesis, the rest. */
  predicate Follows(after: string, c: string, rest: string) {
    Ends(after) && SkipSpace(after) == c + rest && NothingAt(0, SkipSpace(after))
  }

  lemma ParsesUpTo(result: (int, State), e: Expr, nesting: nat, st: State, after: string, c: string, r: string)
    requires Parses(result, e, nesting, st, after) && Follows(after, c, r) && c != "" && !IsSpace(c[0])
    ensures Parses(result, e, nesting, st, c + r)
  {
    assert (c + r)[0] == c[0];
    NoBlank(c + r);
    hide Parses, SkipSpace, NothingAt;
    ParsesBeforeBlank(result, e, nesting, st, after, c + r);
  }

  /** An operand that is written as a whole conditional expression, up to the comma or parenthesis after it. */
  lemma {:induction false} ExactOperand(a: Syntax, st: State, after: string, c: string, r: string, strtod: Strtod)
    requires WellWritten(a, strtod) && Ready(st) && st.rest == Text(a) + after
    requires Follows(after, c, r) && c != "" && !IsSpace(c[0])
    ensures Parses(ParseConditional(st, strtod), Meant(a), Nesting(a), st, c + r)
    decreases a, Rank(a, 0) + 1, 0
  {
    hide Text, Parses, WellWritten, NothingAt, Ends, SkipSpace;
    Exact(a, 0, st, after, strtod);
    ParsesUpTo(ParseConditional(st, strtod), Meant(a), Nesting(a), st, after, c, r);
  }

  lemma ChoiceParts(x: Syntax, r: string, strtod: Strtod)
    returns (ra: string, tb: string, rb: string, tc: string)
    requires x.Choice? && WellWritten(x, strtod)
    ensures Text(x) + r == Text(x.a) + ra
    ensures Ends(ra) && SkipSpace(ra) == "?" + tb && NothingAt(1, "?" + tb) && SkipSpace("?" + tb) == "?" + tb
    ensures tb == Text(x.b) + rb && Follows(rb, ":", tc)
    ensures tc == Text(x.c) + r
  {
    tc := Text(x.c) + r;
    rb := x.colon + (":" + tc);
    tb := Text(x.b) + rb;
    ra := x.question + ("?" + tb);
    ChoiceText(x.a, x.question, x.b, x.colon, x.c, r);
    BeforeQuestion(tb);
    AfterBlank(x.question, "?" + tb);
    BlankIsFresh(x.question, "?" + tb);
    NoBlank("?" + tb);
    hide Text, NothingAt, Ends, SkipSpace;
    BeforeClosing(x.colon, ":", tc);
  }

  lemma {:induction false} ExactChoice(x: Syntax, st: State, r: string, strtod: Strtod)
    requires x.Choice? && Written(x, 0, st, r, 0, strtod)
    ensures Parses(ParseConditional(st, strtod), Meant(x), Nesting(x), st, r)
    decreases x, 0, 0
  {
    var (a, b, c) := (x.a, x.b, x.c);
    var ra, tb, rb, tc := ChoiceParts(x, r, strtod);
    assert WellWritten(a, strtod) && WellWritten(b, strtod) && WellWritten(c, strtod) && Level(a) >= 1;
    hide Text, Parses, ParseConditional, ParseLeft, Ends, NothingAt, Flat, WellWritten, SkipSpace, Follows, Blank;
    var sb := After(Meant(a), st, tb);
    var sc := After(Meant(b), sb, tc);
    Exact(a, 1, st, ra, strtod);
    ParsesBeforeBlank(ParseLeft(1, st, strtod), Meant(a), Nesting(a), st, ra, "?" + tb);
    if Fits(Meant(a), Nesting(a), st) {
      ExactOperand(b, sb, rb, ":", tc, strtod);
      if Fits(Meant(b), Nesting(b), sb) { Exact(c, 0, sc, r, strtod); }
    }
    ConditionalIsParsed(Meant(a), Nesting(a), Meant(b), Nesting(b), tb, Meant(c), Nesting(c), tc, st, r, strtod);
  }

  // A call: the word, then a state at the opening parenthesis.

  lemma Opened(w: Word, open: string, text: string, st: State, strtod: Strtod)
    requires BlankWord(w) && Blank(open) && !st.failed && st.rest == WordText(w) + (open + ("(" + text))
    requires SkipSpace(st.rest) == Spelled(w) + (open + ("(" + text))
    requires IsIdentifier(w.name) && w.name != "Math"
    ensures var sf := st.(rest := open + ("(" + text));
            ParsePrimary(st, strtod) == ParseNamed(w.name, sf, strtod) && SkipSpace(sf.rest) == "(" + text
  {
    BlankIsFresh(open, "(" + text);
    AfterBlank(open, "(" + text);
    hide ParsePrimary, ParseNamed, SkipSpace, Spelled, WordText;
    WordIsReached(w, st, open + ("(" + text), strtod);
  }

  lemma Apply1Text(f: Function1, word: Word, open: string, a: Syntax, close: string, r: string)
    ensures Text(Apply1(f, word, open, a, close)) + r
         == WordText(word) + (open + ("(" + (Text(a) + (close + (")" + r)))))
  {
    var inner := Text(a) + (close + ")");
    assert Text(Apply1(f, word, open, a, close)) == WordText(word) + (open + ("(" + inner));
    hide Text, WordText;
    InwardTwice(WordText(word), open, "(", inner, r);
    Inward(Text(a), close, ")", r);
  }

  lemma {:induction false} ExactApply1(x: Syntax, st: State, r: string, strtod: Strtod)
    requires x.Apply1? && Written(x, 13, st, r, 13, strtod)
    ensures Parses(ParsePrimary(st, strtod), Meant(x), Nesting(x), st, r)
    decreases x, 0, 0
  {
    var (f, w, a) := (x.f1, x.word, x.a);
    Apply1Text(f, w, x.open, a, x.close, r);
    var ra := x.close + (")" + r);
    var text := Text(a) + ra;
    BeforeClosing(x.close, ")", r);
    assert WellWritten(a, strtod) && w.name in Names1(f) && BlankWord(w) && Blank(x.open) && Follows(ra, ")", r);
    hide Text, Parses, ParsePrimary, ParseNamed, ParseConditional, Ends, NothingAt, Flat, Names1, Named, WellWritten,
      SkipSpace, WordText, Spelled, IsIdentifier, Names2, Names3, LeafNames, Follows, Blank;
    ProperNames(w.name, SampleIndex, f, Atan2, Clamp);
    WordAfterBlank(w, SampleIndex, f, Atan2, Clamp, x.open + ("(" + text));
    Opened(w, x.open, text, st, strtod);
    var sf, sa := st.(rest := x.open + ("(" + text)), st.(rest := text);
    assert sf.(rest := text) == sa;
    ExactOperand(a, sa, ra, ")", r, strtod);
    Call1IsParsed(f, w.name, Meant(a), Nesting(a), text, sf, r, strtod);
    SameStart(ParsePrimary(st, strtod), Meant(x), Nesting(x), sf, st, r);
  }

  lemma SameStart(result: (int, State), e: Expr, nesting: nat, s: State, t: State, r: string)
    requires Parses(result, e, nesting, s, r) && t == s.(rest := t.rest)
    ensures Parses(result, e, nesting, t, r)
  {
    hide Flat, SkipSpace;
  }

  lemma Apply2Text(f: Function2, word: Word, open: string, a: Syntax, comma: string, b: Syntax, close: string, r: string)
    ensures Text(Apply2(f, word, open, a, comma, b, close)) + r
         == WordText(word) + (open + ("(" + (Text(a) + (comma + ("," + (Text(b) + (close + (")" + r))))))))
  {
    var last := Text(b) + (close + ")");
    var inner := Text(a) + (comma + ("," + last));
    assert Text(Apply2(f, word, open, a, comma, b, close)) == WordText(word) + (open + ("(" + inner));
    hide Text, WordText;
    InwardTwice(WordText(word), open, "(", inner, r);
    InwardTwice(Text(a), comma, ",", last, r);
    Inward(Text(b), close, ")", r);
  }

  lemma Apply2Parts(x: Syntax, r: string, strtod: Strtod) returns (ta: string, ra: string, tb: string, rb: string)
    requires x.Apply2? && WellWritten(x, strtod)
    ensures Text(x) + r == WordText(x.word) + (x.open + ("(" + ta))
    ensures ta == Text(x.a) + ra && Follows(ra, ",", tb)
    ensures tb == Text(x.b) + rb && Follows(rb, ")", r)
  {
    rb := x.close + (")" + r);
    tb := Text(x.b) + rb;
    ra := x.comma + ("," + tb);
    ta := Text(x.a) + ra;
    Apply2Text(x.f2, x.word, x.open, x.a, x.comma, x.b, x.close, r);
    hide Text, WordText, NothingAt, Ends, SkipSpace, Names2;
    BeforeClosing(x.close, ")", r);
    BeforeClosing(x.comma, ",", tb);
  }

  lemma {:induction false} ExactApply2(x: Syntax, st: State, r: string, strtod: Strtod)
    requires x.Apply2? && Written(x, 13, st, r, 13, strtod)
    ensures Parses(ParsePrimary(st, strtod), Meant(x), Nesting(x), st, r)
    decreases x, 0, 0
  {
    var (f, w, a, b) := (x.f2, x.word, x.a, x.b);
    var ta, ra, tb, rb := Apply2Parts(x, r, strtod);
    assert WellWritten(a, strtod) && WellWritten(b, strtod);
    assert w.name in Names2(f) && BlankWord(w) && Blank(x.open);
    hide Text, Parses, ParsePrimary, ParseNamed, ParseConditional, Ends, NothingAt, Flat, Names1, Named, WellWritten,
      SkipSpace, WordText, Spelled, IsIdentifier, Names2, Names3, LeafNames, Follows, Blank;
    ProperNames(w.name, SampleIndex, Sin, f, Clamp);
    WordAfterBlank(w, SampleIndex, Sin, f, Clamp, x.open + ("(" + ta));
    Opened(w, x.open, ta, st, strtod);
    var sf, sa := st.(rest := x.open + ("(" + ta)), st.(rest := ta);
    var sb := After(Meant(a), st, tb);
    assert sf.(rest := ta) == sa && After(Meant(a), sf, tb) == sb;
    ExactOperand(a, sa, ra, ",", tb, strtod);
    if Fits(Meant(a), Nesting(a), st) { ExactOperand(b, sb, rb, ")", r, strtod); }
    Call2IsParsed(f, w.name, Meant(a), Nesting(a), ta, Meant(b), Nesting(b), tb, sf, r, strtod);
    SameStart(ParsePrimary(st, strtod), Meant(x), Nesting(x), sf, st, r);
  }

  lemma Apply3Text(x: Syntax, r: string)
    requires x.Apply3?
    ensures Text(x) + r
         == WordText(x.word) + (x.open + ("(" + (Text(x.a) + (x.comma + ("," + (Text(x.b) + (x.comma2 + ("," + (Text(x.c)
            + (x.close + (")" + r)))))))))))
  {
    var last := Text(x.c) + (x.close + ")");
    var middle := Text(x.b) + (x.comma2 + ("," + last));
    var inner := Text(x.a) + (x.comma + ("," + middle));
    assert Text(x) == WordText(x.word) + (x.open + ("(" + inner));
    hide Text, WordText;
    InwardTwice(WordText(x.word), x.open, "(", inner, r);
    InwardTwice(Text(x.a), x.comma, ",", middle, r);
    InwardTwice(Text(x.b), x.comma2, ",", last, r);
    Inward(Text(x.c), x.close, ")", r);
  }

  lemma Apply3Parts(x: Syntax, r: string, strtod: Strtod)
    returns (ta: string, ra: string, tb: string, rb: string, tc: string, rc: string)
    requires x.Apply3? && WellWritten(x, strtod)
    ensures Text(x) + r == WordText(x.word) + (x.open + ("(" + ta))
    ensures ta == Text(x.a) + ra && Follows(ra, ",", tb)
    ensures tb == Text(x.b) + rb && Follows(rb, ",", tc)
    ensures tc == Text(x.c) + rc && Follows(rc, ")", r)
  {
    rc := x.close + (")" + r);
    tc := Text(x.c) + rc;
    rb := x.comma2 + ("," + tc);
    tb := Text(x.b) + rb;
    ra := x.comma + ("," + tb);
    ta := Text(x.a) + ra;
    Apply3Text(x, r);
    hide Text, WordText, NothingAt, Ends, SkipSpace, Names3;
    BeforeClosing(x.close, ")", r);
    BeforeClosing(x.comma2, ",", tc);
    BeforeClosing(x.comma, ",", tb);
  }

  lemma Apply3Opens(x: Syntax, st: State, r: string, strtod: Strtod)
    returns (ta: string, ra: string, tb: string, rb: string, tc: string, rc: string)
    requires x.Apply3? && Written(x, 13, st, r, 13, strtod)
    ensures var sf := st.(rest := x.open + ("(" + ta));
            ParsePrimary(st, strtod) == ParseNamed(x.word.name, sf, strtod) && SkipSpace(sf.rest) == "(" + ta
    ensures ta == Text(x.a) + ra && Follows(ra, ",", tb)
    ensures tb == Text(x.b) + rb && Follows(rb, ",", tc)
    ensures tc == Text(x.c) + rc && Follows(rc, ")", r)
    ensures WellWritten(x.a, strtod) && WellWritten(x.b, strtod) && WellWritten(x.c, strtod) && x.word.name in Names3(x.f3)
  {
    ta, ra, tb, rb, tc, rc := Apply3Parts(x, r, strtod);
    hide Text, ParsePrimary, ParseNamed, SkipSpace, WordText, Spelled, IsIdentifier, Names3, LeafNames, Follows, Blank,
      Ends, NothingAt;
    ProperNames(x.word.name, SampleIndex, Sin, Atan2, x.f3);
    WordAfterBlank(x.word, SampleIndex, Sin, Atan2, x.f3, x.open + ("(" + ta));
    Opened(x.word, x.open, ta, st, strtod);
  }

  lemma {:induction false} ExactApply3(x: Syntax, st: State, r: string, strtod: Strtod)
    requires x.Apply3? && Written(x, 13, st, r, 13, strtod)
    ensures Parses(ParsePrimary(st, strtod), Meant(x), Nesting(x), st, r)
    decreases x, 0, 0
  {
    var (a, b, c) := (x.a, x.b, x.c);
    var ta, ra, tb, rb, tc, rc := Apply3Opens(x, st, r, strtod);
    assert Ready(st);
    hide Text, Parses, ParsePrimary, ParseNamed, ParseConditional, Flat, WellWritten, SkipSpace, Names3, Follows, Written;
    var sf, sa := st.(rest := x.open + ("(" + ta)), st.(rest := ta);
    var sb := After(Meant(a), st, tb);
    var sc := After(Meant(b), sb, tc);
    assert sf.(rest := ta) == sa && After(Meant(a), sf, tb) == sb;
    ExactOperand(a, sa, ra, ",", tb, strtod);
    if Fits(Meant(a), Nesting(a), st) {
      ExactOperand(b, sb, rb, ",", tc, strtod);
      if Fits(Meant(b), Nesting(b), sb) { ExactOperand(c, sc, rc, ")", r, strtod); }
    }
    Call3IsParsed(x.f3, x.word.name, Meant(a), Nesting(a), ta, Meant(b), Nesting(b), tb, Meant(c), Nesting(c), tc, sf, r,
                  strtod);
    SameStart(ParsePrimary(st, strtod), Meant(x), Nesting(x), sf, st, r);
  }

  /** The compiler reads what is written: the text of an expression, with any blanks between its tokens and after them,
      any of the spellings of names and numbers and any parentheses beyond the necessary ones, compiles exactly when it
      respects the four limits, and then to the layout of the expression it means, whose tree is that expression. */
  lemma CompileReadsWriting(x: Syntax, trailing: string, strtod: Strtod)
    requires WellWritten(x, strtod) && Blank(trailing)
    ensures var (text, e) := (Text(x) + trailing, Meant(x));
            var program := Compile(text, strtod);
            && (program.Some? <==> |text| <= MAX_EXPRESSION && Size(e) <= MAX_NODES && Nesting(x) <= MAX_DEPTH
                                   && Depth(e) <= MAX_DEPTH)
            && (program.Some? ==>
                  && program.value == Program(Flat(e, 0), Size(e) - 1, Depth(e))
                  && WellShaped(program.value.nodes)
                  && Denote(program.value.nodes, program.value.root) == e)
  {
    hide Text, Nesting, Meant, Depth, Flat, WellShaped, Denote, HoldsTree, TreeDepth, ParseConditional, Finish, Size,
      WellWritten, SkipSpace, Blank;
    var (text, e) := (Text(x) + trailing, Meant(x));
    WholeTextIsParsed(x, trailing, strtod);
    FlatIsShaped(e);
    DenoteOfFlat(Flat(e, 0), e, 0);
    var result := ParseConditional(State(text, [], 0, false), strtod);
    FinishOfRefused(result);
    FinishOfLayout(e, result.1);
  }

  lemma WholeTextIsParsed(x: Syntax, trailing: string, strtod: Strtod)
    requires WellWritten(x, strtod) && Blank(trailing)
    ensures var (text, e) := (Text(x) + trailing, Meant(x));
            var result := ParseConditional(State(text, [], 0, false), strtod);
            && text != ""
            && (if Size(e) <= MAX_NODES && Nesting(x) <= MAX_DEPTH then
                  result.0 == Size(e) - 1 && result.1.nodes == Flat(e, 0) && !result.1.failed
                  && SkipSpace(result.1.rest) == ""
                else Refused(result))
  {
    hide Text, Nesting, Flat, ParseConditional, Fresh, Ends, NothingAt, Size, WellWritten, SkipSpace, Blank, Meant;
    TextOpens(x, strtod);
    ClosedByPunctuation("");
    TrailingEnds(trailing);
    var st := State(Text(x) + trailing, [], 0, false);
    Exact(x, 0, st, trailing, strtod);
    assert [] + Flat(Meant(x), 0) == Flat(Meant(x), 0);
  }

  lemma TrailingEnds(trailing: string)
    requires Blank(trailing)
    ensures Ends(trailing) && SkipSpace(trailing) == ""
  {
    assert trailing + "" == trailing;
    SkipsBlank(trailing, "");
    if trailing != "" { BlanksAreSpaces(trailing[0]); }
  }

  lemma FinishOfLayout(e: Expr, st: State)
    ensures !st.failed && SkipSpace(st.rest) == "" && st.nodes == Flat(e, 0) ==>
      Finish(Size(e) - 1, st) == if Depth(e) <= MAX_DEPTH then Some(Program(Flat(e, 0), Size(e) - 1, Depth(e))) else None
  {
    hide Flat, WellShaped, TreeDepth, Depth, Size, SkipSpace;
    LayoutIsShaped(e);
  }

  lemma FinishOfRefused(result: (int, State))
    ensures Refused(result) ==> Finish(result.0, result.1) == None
  {
  }
}
