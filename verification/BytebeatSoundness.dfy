/**
 Whatever text is compiled, the nodes that come out are the post-order layout of
 exactly one expression tree.
 */
module BytebeatSoundness {
  import opened BytebeatProgram
  import opened BytebeatGrammar

  /** From `before` to `after` exactly the layout of e was appended, its root at index i. */
  predicate Yields(before: seq<Node>, i: int, after: seq<Node>, e: Expr) {
    after == before + Flat(e, |before|) && i == |after| - 1
  }

  /** A production's outcome: either no node, or one whole tree appended. */
  ghost predicate Grown(before: seq<Node>, i: int, after: seq<Node>) {
    i >= 0 ==> |after| <= MAX_NODES && exists e :: Yields(before, i, after, e)
  }

  lemma YieldsAtom(st: State, leaf: Leaf)
    ensures Grown(st.nodes, EmitLeaf(st, leaf).0, EmitLeaf(st, leaf).1.nodes)
  {
    if EmitLeaf(st, leaf).0 >= 0 {
      assert Flat(Atom(leaf), |st.nodes|) == [Node(KAtom(leaf), -1, -1, -1)];
      assert Yields(st.nodes, EmitLeaf(st, leaf).0, EmitLeaf(st, leaf).1.nodes, Atom(leaf));
    }
  }

  lemma Regrouped(before: seq<Node>, x: seq<Node>, y: seq<Node>, z: seq<Node>, n: seq<Node>)
    ensures before + x + y + z + n == before + (x + (y + (z + n)))
  {
  }

  lemma YieldsOne(before: seq<Node>, ia: int, st: State, op: Op1)
    requires ia >= 0 && Grown(before, ia, st.nodes)
    ensures var (i, st') := Emit(st, Node(K1(op), ia, -1, -1)); Grown(before, i, st'.nodes)
  {
    var (i, st') := Emit(st, Node(K1(op), ia, -1, -1));
    if i >= 0 {
      var a :| Yields(before, ia, st.nodes, a);
      var e := One(op, a);
      FlatParts(e, |before|);
      hide Flat;
      Regrouped(before, Flat(a, |before|), [], [], [RootNode(e, |before|)]);
      assert Yields(before, i, st'.nodes, e);
    }
  }

  lemma YieldsTwo(before: seq<Node>, ia: int, middle: seq<Node>, ib: int, st: State, op: Op2)
    requires ia >= 0 && Grown(before, ia, middle)
    requires ib >= 0 && Grown(middle, ib, st.nodes)
    ensures var (i, st') := Emit(st, Node(K2(op), ia, ib, -1)); Grown(before, i, st'.nodes)
  {
    var (i, st') := Emit(st, Node(K2(op), ia, ib, -1));
    if i >= 0 {
      var a :| Yields(before, ia, middle, a);
      var b :| Yields(middle, ib, st.nodes, b);
      var e := Two(op, a, b);
      FlatParts(e, |before|);
      hide Flat;
      Regrouped(before, Flat(a, |before|), Flat(b, |middle|), [], [RootNode(e, |before|)]);
      assert Yields(before, i, st'.nodes, e);
    }
  }

  lemma YieldsThree(before: seq<Node>, ia: int, m1: seq<Node>, ib: int, m2: seq<Node>, ic: int, st: State, op: Op3)
    requires ia >= 0 && Grown(before, ia, m1)
    requires ib >= 0 && Grown(m1, ib, m2)
    requires ic >= 0 && Grown(m2, ic, st.nodes)
    ensures var (i, st') := Emit(st, Node(K3(op), ia, ib, ic)); Grown(before, i, st'.nodes)
  {
    var (i, st') := Emit(st, Node(K3(op), ia, ib, ic));
    if i >= 0 {
      var a :| Yields(before, ia, m1, a);
      var b :| Yields(m1, ib, m2, b);
      var c :| Yields(m2, ic, st.nodes, c);
      var e := Three(op, a, b, c);
      FlatParts(e, |before|);
      hide Flat, Size;
      Regrouped(before, Flat(a, |before|), Flat(b, |m1|), Flat(c, |m2|), [RootNode(e, |before|)]);
      assert Yields(before, i, st'.nodes, e);
    }
  }

  lemma {:induction false} ConditionalGrows(st: State, strtod: Strtod)
    ensures var (i, st') := ParseConditional(st, strtod); Grown(st.nodes, i, st'.nodes)
    decreases |st.rest|, 40
  {
    hide Grown;
    var (a, st1) := ParseLeft(1, st, strtod);
    LeftGrows(1, st, strtod);
    NothingGrows(st, ParseConditional(st, strtod));
    if a >= 0 {
      var (question, st2) := Match(st1, "?");
      if question {
        var (b, st3) := ParseConditional(st2, strtod);
        ConditionalGrows(st2, strtod);
        var (colon, st4) := Match(st3, ":");
        if b >= 0 && colon {
          var (c, st5) := ParseConditional(st4, strtod);
          ConditionalGrows(st4, strtod);
          if c >= 0 { YieldsThree(st.nodes, a, st1.nodes, b, st3.nodes, c, st5, Conditional); }
        }
      }
    }
  }

  lemma NothingGrows(st: State, r: (int, State))
    ensures r.0 < 0 ==> Grown(st.nodes, r.0, r.1.nodes)
  {
  }

  lemma {:induction false} TighterGrows(level: nat, st: State, strtod: Strtod)
    requires 1 <= level <= 10
    ensures var (i, st') := ParseTighter(level, st, strtod); Grown(st.nodes, i, st'.nodes)
    decreases |st.rest|, 31 - 2 * level
  {
    hide Grown;
    if level < 10 { LeftGrows(level + 1, st, strtod); } else { PowerGrows(st, strtod); }
  }

  lemma {:induction false} LeftGrows(level: nat, st: State, strtod: Strtod)
    requires 1 <= level <= 10
    ensures var (i, st') := ParseLeft(level, st, strtod); Grown(st.nodes, i, st'.nodes)
    decreases |st.rest|, 32 - 2 * level
  {
    hide Grown;
    var (left, st1) := ParseTighter(level, st, strtod);
    TighterGrows(level, st, strtod);
    NothingGrows(st, ParseLeft(level, st, strtod));
    if left >= 0 { LoopGrows(level, st.nodes, left, st1, strtod); }
  }

  lemma {:induction false} LoopGrows(level: nat, before: seq<Node>, left: int, st: State, strtod: Strtod)
    requires 1 <= level <= 10 && left >= 0 && Grown(before, left, st.nodes)
    ensures var (i, st') := LeftLoop(level, left, st, strtod); Grown(before, i, st'.nodes)
    decreases |st.rest|, 0
  {
    hide Grown;
    NothingGrows(st.(nodes := before), LeftLoop(level, left, st, strtod));
    var s := SkipSpace(st.rest);
    match OperatorAt(level, s) {
      case None =>
      case Some((op, n)) =>
        var (right, st1) := ParseTighter(level, st.(rest := s[n..]), strtod);
        TighterGrows(level, st.(rest := s[n..]), strtod);
        if right >= 0 {
          YieldsTwo(before, left, st.nodes, right, st1, Infix(op));
          var (node, st2) := Emit(st1, Node(K2(Infix(op)), left, right, -1));
          if node >= 0 { LoopGrows(level, before, node, st2, strtod); }
        }
    }
  }

  lemma {:induction false} PowerGrows(st: State, strtod: Strtod)
    ensures var (i, st') := ParsePower(st, strtod); Grown(st.nodes, i, st'.nodes)
    decreases |st.rest|, 10
  {
    hide Grown;
    NothingGrows(st, ParsePower(st, strtod));
    var (left, st1) := ParseUnary(st, strtod);
    UnaryGrows(st, strtod);
    if left >= 0 {
      var (power, st2) := Match(st1, "**");
      if power {
        var (right, st3) := ParsePower(st2, strtod);
        PowerGrows(st2, strtod);
        if right >= 0 { YieldsTwo(st.nodes, left, st1.nodes, right, st3, Infix(Power)); }
      }
    }
  }

  lemma {:induction false} UnaryGrows(st: State, strtod: Strtod)
    ensures var (i, st') := ParseUnary(st, strtod); Grown(st.nodes, i, st'.nodes)
    decreases |st.rest|, 9
  {
    hide Grown;
    NothingGrows(st, ParseUnary(st, strtod));
    var s := SkipSpace(st.rest);
    match PrefixAt(s) {
      case Some(op) =>
        var (child, st1) := ParseUnary(st.(rest := s[1..]), strtod);
        UnaryGrows(st.(rest := s[1..]), strtod);
        if child >= 0 { YieldsOne(st.nodes, child, st1, Prefix(op)); }
      case None => PrimaryGrows(st.(rest := s), strtod);
    }
  }

  lemma NumberGrows(st: State, strtod: Strtod)
    ensures var (i, st') := ParseNumber(st, strtod); Grown(st.nodes, i, st'.nodes)
  {
    hide Grown;
    NothingGrows(st, ParseNumber(st, strtod));
    var s := SkipSpace(st.rest);
    if IsPrefixed(s) {
      var radix := if s[1] == 'x' || s[1] == 'X' then 16 else 2;
      var n := DigitRun(s[2..], radix);
      if n > 0 { YieldsAtom(st.(rest := s[2 + n..]), Constant(Whole(Accumulate(s[2..2 + n], radix, 0)))); }
    } else {
      var n := strtod(s);
      if 0 < n <= |s| { YieldsAtom(st.(rest := s[n..]), Constant(Decimal(s[..n]))); }
    }
  }

  lemma MatchKeepsNodes(st: State, token: string)
    ensures Match(st, token).1.nodes == st.nodes
  {
  }

  lemma NameKeepsNodes(st: State)
    ensures ParseName(st).1.nodes == st.nodes
  {
  }

  lemma {:induction false} PrimaryGrows(st: State, strtod: Strtod)
    ensures var (i, st') := ParsePrimary(st, strtod); Grown(st.nodes, i, st'.nodes)
    decreases |st.rest|, 8
  {
    hide Grown, ParseNumber, ParseName, ParseNamed, ParseParenthesized, Match;
    MatchKeepsNodes(st, "(");
    NothingGrows(st, ParsePrimary(st, strtod));
    var (open, st1) := Match(st, "(");
    if open {
      ParenthesizedGrows(st1, strtod);
    } else {
      NumberGrows(st1, strtod);
      var (number, st2) := ParseNumber(st1, strtod);
      if number < 0 && !st2.failed {
        var (name, st3) := ParseName(st1);
        NameKeepsNodes(st1);
        if name.Some? { NamedGrows(name.value, st3, strtod); }
      }
    }
  }

  lemma {:induction false} ParenthesizedGrows(st: State, strtod: Strtod)
    ensures var (i, st') := ParseParenthesized(st, strtod); Grown(st.nodes, i, st'.nodes)
    decreases |st.rest|, 41
  {
    hide Grown;
    NothingGrows(st, ParseParenthesized(st, strtod));
    ConditionalGrows(st.(depth := st.depth + 1), strtod);
  }

  /** The arguments parsed so far: each one a tree laid out after the one before it. */
  ghost predicate ArgumentsLaidOut(before: seq<Node>, args: seq<int>, after: seq<Node>)
    decreases |args|
  {
    if args == [] then after == before
    else
      exists k: nat :: k <= |after| && ArgumentsLaidOut(before, args[..|args| - 1], after[..k])
                       && args[|args| - 1] >= 0 && Grown(after[..k], args[|args| - 1], after)
  }

  lemma GrownExtends(before: seq<Node>, i: int, after: seq<Node>)
    requires i >= 0 && Grown(before, i, after)
    ensures |before| <= |after| && before == after[..|before|]
  {
    var e :| Yields(before, i, after, e);
  }

  lemma OneMoreArgument(before: seq<Node>, args: seq<int>, middle: seq<Node>, arg: int, after: seq<Node>)
    requires ArgumentsLaidOut(before, args, middle) && arg >= 0 && Grown(middle, arg, after)
    ensures ArgumentsLaidOut(before, args + [arg], after)
  {
    hide Grown;
    GrownExtends(middle, arg, after);
    assert (args + [arg])[..|args|] == args;
  }

  lemma {:induction false} ArgumentsGrow(before: seq<Node>, left: nat, args: seq<int>, st: State, strtod: Strtod)
    requires ArgumentsLaidOut(before, args, st.nodes)
    ensures var (args', st') := ParseArguments(left, args, st, strtod);
            |args'| == |args| + left ==> ArgumentsLaidOut(before, args', st'.nodes)
    decreases |st.rest|, 42, left
  {
    hide Grown;
    if left > 0 {
      var (arg, st1) := ParseConditional(st, strtod);
      ConditionalGrows(st, strtod);
      if arg >= 0 {
        OneMoreArgument(before, args, st.nodes, arg, st1.nodes);
        hide ArgumentsLaidOut;
        if left > 1 {
          var (comma, st2) := Match(st1, ",");
          if comma { ArgumentsGrow(before, left - 1, args + [arg], st2, strtod); }
        }
      }
    }
  }

  lemma CallGrows(before: seq<Node>, m: Meaning, args: seq<int>, st: State)
    requires !m.Value? && !m.Unknown? && |args| == Arity(m) && ArgumentsLaidOut(before, args, st.nodes)
    ensures var (i, st') := Emit(st, CallNode(m, args)); Grown(before, i, st'.nodes)
  {
    hide Grown;
    var last := |args| - 1;
    var k :| 0 <= k <= |st.nodes| && ArgumentsLaidOut(before, args[..last], st.nodes[..k])
             && args[last] >= 0 && Grown(st.nodes[..k], args[last], st.nodes);
    var n1 := st.nodes[..k];
    match m {
      case Unary1(f) => YieldsOne(before, args[0], st, Call1(f));
      case Binary2(f) =>
        var j := LastArgument(before, args[..1], n1);
        YieldsTwo(before, args[0], n1, args[1], st, Call2(f));
      case Ternary3(f) =>
        var j := LastArgument(before, args[..2], n1);
        assert args[..2][..1] == args[..1];
        var h := LastArgument(before, args[..1], n1[..j]);
        YieldsThree(before, args[0], n1[..j], args[1], n1, args[2], st, Call3(f));
    }
  }

  lemma LastArgument(before: seq<Node>, args: seq<int>, after: seq<Node>) returns (k: nat)
    requires args != [] && ArgumentsLaidOut(before, args, after)
    ensures k <= |after| && ArgumentsLaidOut(before, args[..|args| - 1], after[..k])
    ensures args[|args| - 1] >= 0 && Grown(after[..k], args[|args| - 1], after)
    ensures |args| == 1 ==> after[..k] == before
  {
    k :| 0 <= k <= |after| && ArgumentsLaidOut(before, args[..|args| - 1], after[..k])
         && args[|args| - 1] >= 0 && Grown(after[..k], args[|args| - 1], after);
  }

  lemma {:induction false} NamedGrows(name: string, st: State, strtod: Strtod)
    ensures var (i, st') := ParseNamed(name, st, strtod); Grown(st.nodes, i, st'.nodes)
    decreases |st.rest|, 43
  {
    hide Grown, Named;
    NothingGrows(st, ParseNamed(name, st, strtod));
    var meaning := Named(name);
    match meaning {
      case Value(leaf) => YieldsAtom(st, leaf);
      case Unknown =>
      case _ =>
        var (open, st1) := Match(st, "(");
        if open {
          var (args, st2) := ParseArguments(Arity(meaning), [], st1, strtod);
          ArgumentsGrow(st.nodes, Arity(meaning), [], st1, strtod);
          var (close, st3) := Match(st2, ")");
          if |args| == Arity(meaning) && close { CallGrows(st.nodes, meaning, args, st3); }
        }
    }
  }

  lemma LayoutIsShaped(e: Expr)
    ensures WellShaped(Flat(e, 0)) && TreeDepth(Flat(e, 0), Size(e) - 1) == Depth(e)
  {
    hide Flat, WellShaped, HoldsTree, Denote, TreeDepth, Depth, Size;
    FlatIsShaped(e);
    DenoteOfFlat(Flat(e, 0), e, 0);
    TreeDepthIsDepth(Flat(e, 0), Size(e) - 1);
  }

  lemma FinishedIsOneTree(root: int, st: State)
    requires Grown([], root, st.nodes)
    ensures var parsed := !st.failed && SkipSpace(st.rest) == "" && root >= 0;
            && (Finish(root, st).Some? ==> parsed && OneTree(Finish(root, st).value))
            && (parsed ==> exists e :: && st.nodes == Flat(e, 0) && root == Size(e) - 1
                                       && (Finish(root, st).Some? <==> Depth(e) <= MAX_DEPTH))
  {
    hide Flat, SkipSpace, WellShaped, TreeDepth, Depth, Size;
    if root >= 0 {
      var e :| Yields([], root, st.nodes, e);
      assert st.nodes == Flat(e, 0);
      LayoutIsShaped(e);
    }
  }

  /** For every text: if it compiles, the program is one tree, and so within the evaluator's limits. It compiles
      exactly when parsing did not fail, consumed everything, and gave a tree no deeper than the limit. */
  lemma CompiledIsOneTree(text: string, strtod: Strtod)
    ensures var (root, st) := ParseConditional(State(text, [], 0, false), strtod);
            var parsed := !st.failed && SkipSpace(st.rest) == "" && root >= 0;
            && (Compile(text, strtod).Some? ==> 0 < |text| <= MAX_EXPRESSION && parsed && OneTree(Compile(text, strtod).value))
            && (0 < |text| <= MAX_EXPRESSION && parsed ==>
                  exists e :: && st.nodes == Flat(e, 0) && root == Size(e) - 1
                              && (Compile(text, strtod).Some? <==> Depth(e) <= MAX_DEPTH))
  {
    hide ParseConditional, SkipSpace, Finish, Grown, Flat, Size, Depth, OneTree;
    var st0 := State(text, [], 0, false);
    var (root, st) := ParseConditional(st0, strtod);
    ConditionalGrows(st0, strtod);
    FinishedIsOneTree(root, st);
  }
}
