/**
 The compiler as it runs: a parser object whose cursor moves over the text while nodes
 are appended to the program's fixed array. Every method is proved to do to the parser
 what its production in BytebeatGrammar does to the state.
 */
module BytebeatCompiler {
  import opened Common
  import opened BytebeatProgram
  import opened BytebeatGrammar
  import Soundness = BytebeatSoundness
  import G = BytebeatGrammar

  class Parser {
    const text: string
    const strtod: Strtod
    const nodes: array<Node>
    var cursor: nat
    var nodeCount: nat
    var depth: int
    var failed: bool

    ghost predicate Valid()
      reads this
    {
      cursor <= |text| && nodes.Length == MAX_NODES && nodeCount <= MAX_NODES
    }

    ghost function Abs(): State
      reads this, nodes
      requires Valid()
    {
      State(text[cursor..], nodes[..nodeCount], depth, failed)
    }

    constructor (text: string, strtod: Strtod)
      ensures Valid() && Abs() == State(text, [], 0, false)
      ensures fresh(nodes) && this.text == text && this.strtod == strtod
    {
      this.text, this.strtod := text, strtod;
      nodes := new Node[MAX_NODES](_ => Node(KAtom(SampleIndex), -1, -1, -1));
      cursor, nodeCount, depth, failed := 0, 0, 0, false;
    }

    method SkipSpace()
      requires Valid()
      modifies this`cursor
      ensures Valid() && Abs() == old(Abs()).(rest := G.SkipSpace(old(Abs()).rest))
    {
      while cursor < |text| && IsSpace(text[cursor])
        invariant cursor <= |text| && G.SkipSpace(text[cursor..]) == G.SkipSpace(old(text[cursor..]))
      {
        cursor := cursor + 1;
      }
    }

    method Match(token: string) returns (ok: bool)
      requires Valid()
      modifies this`cursor
      ensures Valid() && (ok, Abs()) == G.Match(old(Abs()), token)
    {
      SkipSpace();
      ok := |text| - cursor >= |token| && text[cursor..cursor + |token|] == token;
      assert ok == Starts(text[cursor..], token) by {
        assert |text| - cursor >= |token| ==> text[cursor..][..|token|] == text[cursor..cursor + |token|];
      }
      if ok { cursor := cursor + |token|; }
    }

    method MatchSingle(token: char, reject: char) returns (ok: bool)
      requires Valid()
      modifies this`cursor
      ensures Valid()
      ensures var s := G.SkipSpace(old(Abs()).rest);
              ok == StartsSingle(s, token, reject) && Abs() == old(Abs()).(rest := if ok then s[1..] else s)
    {
      SkipSpace();
      if cursor >= |text| || text[cursor] != token { return false; }
      if cursor + 1 < |text| && text[cursor + 1] == reject { return false; }
      cursor := cursor + 1;
      ok := true;
    }

    method Fail()
      requires Valid()
      modifies this`failed
      ensures Valid() && Abs() == G.Fail(old(Abs()))
    {
      failed := true;
    }

    method AddNode(node: Node) returns (index: int)
      requires Valid()
      modifies this`nodeCount, this`failed, nodes
      ensures Valid() && (index, Abs()) == Emit(old(Abs()), node)
    {
      if nodeCount >= MAX_NODES {
        Fail();
        return -1;
      }
      index := nodeCount;
      nodes[index] := node;
      nodeCount := nodeCount + 1;
      assert nodes[..nodeCount] == old(nodes[..nodeCount]) + [node];
    }

    /** Moves over the word characters at the cursor. */
    method Word() returns (length: nat)
      requires Valid()
      modifies this`cursor
      ensures length == WordLength(old(Abs()).rest) && cursor == old(cursor) + length
      ensures Valid() && Abs() == old(Abs()).(rest := old(Abs()).rest[length..])
    {
      ghost var s := text[cursor..];
      length := 0;
      while cursor < |text| && (IsAlpha(text[cursor]) || IsDigit(text[cursor]) || text[cursor] == '_')
        invariant cursor == old(cursor) + length <= |text|
        invariant WordLength(s) == length + WordLength(text[cursor..])
      {
        assert text[cursor..][1..] == text[cursor + 1..];
        length, cursor := length + 1, cursor + 1;
      }
      assert text[cursor..] == s[length..];
    }

    method Identifier() returns (name: Option<string>)
      requires Valid()
      modifies this`cursor, this`failed
      ensures Valid() && (name, Abs()) == ParseIdentifier(old(Abs()))
    {
      hide WordLength, G.SkipSpace;
      SkipSpace();
      if cursor >= |text| || !(IsAlpha(text[cursor]) || text[cursor] == '_') { return None; }
      var start := cursor;
      var length := Word();
      assert text[start..cursor] == text[start..][..length];
      if length + 1 > IDENTIFIER_CAPACITY {
        Fail();
        return None;
      }
      name := Some(text[start..cursor]);
    }

    method Name() returns (name: Option<string>)
      requires Valid()
      modifies this`cursor, this`failed
      ensures Valid() && (name, Abs()) == ParseName(old(Abs()))
    {
      hide ParseIdentifier, G.Match;
      name := Identifier();
      if name == Some("Math") {
        var dot := Match(".");
        if dot {
          name := Identifier();
          if name.None? { Fail(); }
        }
      }
    }

    /** The digits after 0x or 0b at the cursor. */
    method Digits(radix: nat) returns (digits: nat, value: nat)
      requires Valid() && radix <= 16
      modifies this`cursor
      ensures var s := old(Abs()).rest; digits == DigitRun(s, radix) && value == Accumulate(s[..digits], radix, 0)
      ensures Valid() && Abs() == old(Abs()).(rest := old(Abs()).rest[digits..])
    {
      ghost var s := text[cursor..];
      ghost var n := DigitRun(s, radix);
      ghost var start := cursor;
      digits, value := 0, 0;
      while cursor < |text| && DigitValue(text[cursor]) < radix
        invariant start <= cursor == start + digits <= |text| && n == digits + DigitRun(text[cursor..], radix)
        invariant Accumulate(s[..n], radix, 0) == Accumulate(s[digits..n], radix, value)
      {
        assert text[cursor..][1..] == text[cursor + 1..];
        assert s[digits..n][1..] == s[digits + 1..n] && s[digits] == text[cursor];
        value := (value * radix + DigitValue(text[cursor])) % TWO32;
        digits, cursor := digits + 1, cursor + 1;
      }
      assert s[digits..n] == "";
      assert text[cursor..] == s[digits..];
    }

    /** A number after the blanks before it. */
    method Number() returns (node: int)
      requires Valid()
      modifies this, nodes
      ensures Valid() && (node, Abs()) == ParseNumber(old(Abs()), strtod)
    {
      hide G.SkipSpace, ParseNumber;
      ghost var st := Abs();
      SkipSpace();
      NumberAtDigit(st, strtod);
      ghost var s := Abs().rest;
      if |text| - cursor >= 2 && text[cursor] == '0' && text[cursor + 1] in {'x', 'X', 'b', 'B'} {
        node := Prefixed();
      } else if cursor >= |text| || !(IsDigit(text[cursor]) || text[cursor] == '.') {
        node := -1;
      } else {
        node := Decimal();
      }
    }

    method Prefixed() returns (node: int)
      requires Valid() && IsPrefixed(text[cursor..])
      modifies this, nodes
      ensures Valid() && (node, Abs()) == ParsePrefixed(old(Abs()))
    {
      hide DigitRun, Accumulate;
      ghost var s := text[cursor..];
      var radix := if text[cursor + 1] == 'x' || text[cursor + 1] == 'X' then 16 else 2;
      var start := cursor;
      cursor := cursor + 2;
      assert text[cursor..] == s[2..];
      var digits, value := Digits(radix);
      if digits == 0 {
        cursor := start;
        Fail();
        return -1;
      }
      assert s[2..][..digits] == s[2..2 + digits] && s[2..][digits..] == s[2 + digits..];
      node := AddNode(Node(KAtom(Constant(Whole(value))), -1, -1, -1));
    }

    method Decimal() returns (node: int)
      requires Valid()
      modifies this, nodes
      ensures Valid() && (node, Abs()) == ParseDecimal(old(Abs()), strtod)
    {
      var n := strtod(text[cursor..]);
      if n == 0 || n > |text| - cursor { return -1; }
      var literal := text[cursor..cursor + n];
      assert literal == text[cursor..][..n] && text[cursor + n..] == text[cursor..][n..];
      cursor := cursor + n;
      node := AddNode(Node(KAtom(Constant(BytebeatProgram.Decimal(literal))), -1, -1, -1));
    }

    /** The next infix operator of a level, tried in the order the source tries them. */
    method TakeOperator(level: nat) returns (op: Option<BinaryOp>)
      requires Valid() && 1 <= level <= 10
      modifies this`cursor
      ensures Valid()
      ensures Taken(level, old(Abs()), op, Abs())
    {
      hide Taken;
      if level <= 5 { op := TakeLogical(level); } else if level == 6 { op := TakeEquality(); }
      else if level == 7 { op := TakeRelational(); } else if level == 8 { op := TakeShift(); }
      else if level == 9 { op := TakeAdditive(); } else { op := TakeMultiplicative(); }
    }

    method TakeLogical(level: nat) returns (op: Option<BinaryOp>)
      requires Valid() && 1 <= level <= 5
      modifies this`cursor
      ensures Valid() && Taken(level, old(Abs()), op, Abs())
    {
      var ok;
      op := None;
      if level == 1 { ok := Match("||"); if ok { op := Some(LogicalOr); } }
      else if level == 2 { ok := Match("&&"); if ok { op := Some(LogicalAnd); } }
      else if level == 3 { ok := MatchSingle('|', '|'); if ok { op := Some(BitOr); } }
      else if level == 4 { ok := Match("^"); if ok { op := Some(BitXor); } }
      else { ok := MatchSingle('&', '&'); if ok { op := Some(BitAnd); } }
    }

    method TakeEquality() returns (op: Option<BinaryOp>)
      requires Valid()
      modifies this`cursor
      ensures Valid() && Taken(6, old(Abs()), op, Abs())
    {
      Idempotent(Abs().rest);
      hide G.SkipSpace, Starts;
      var ok := Match("===");
      if ok { return Some(Equal); }
      ok := Match("==");
      if ok { return Some(Equal); }
      ok := Match("!==");
      if ok { return Some(NotEqual); }
      ok := Match("!=");
      op := if ok then Some(NotEqual) else None;
    }

    method TakeRelational() returns (op: Option<BinaryOp>)
      requires Valid()
      modifies this`cursor
      ensures Valid() && Taken(7, old(Abs()), op, Abs())
    {
      Idempotent(Abs().rest);
      hide G.SkipSpace, Starts, StartsSingle;
      var ok := Match("<=");
      if ok { return Some(LessEqual); }
      ok := Match(">=");
      if ok { return Some(GreaterEqual); }
      ok := MatchSingle('<', '<');
      if ok { return Some(Less); }
      ok := MatchSingle('>', '>');
      op := if ok then Some(Greater) else None;
    }

    method TakeShift() returns (op: Option<BinaryOp>)
      requires Valid()
      modifies this`cursor
      ensures Valid() && Taken(8, old(Abs()), op, Abs())
    {
      Idempotent(Abs().rest);
      hide G.SkipSpace, Starts;
      var ok := Match(">>>");
      if ok { return Some(ShiftUnsigned); }
      ok := Match("<<");
      if ok { return Some(ShiftLeft); }
      ok := Match(">>");
      op := if ok then Some(ShiftRight) else None;
    }

    method TakeAdditive() returns (op: Option<BinaryOp>)
      requires Valid()
      modifies this`cursor
      ensures Valid() && Taken(9, old(Abs()), op, Abs())
    {
      Idempotent(Abs().rest);
      hide G.SkipSpace, Starts;
      var ok := Match("+");
      if ok { return Some(Add); }
      ok := Match("-");
      op := if ok then Some(Subtract) else None;
    }

    method TakeMultiplicative() returns (op: Option<BinaryOp>)
      requires Valid()
      modifies this`cursor
      ensures Valid() && Taken(10, old(Abs()), op, Abs())
    {
      Idempotent(Abs().rest);
      hide G.SkipSpace, Starts, StartsSingle;
      var ok := MatchSingle('*', '*');
      if ok { return Some(Multiply); }
      ok := Match("/");
      if ok { return Some(Divide); }
      ok := Match("%");
      op := if ok then Some(Modulo) else None;
    }

    method TakePrefix() returns (op: Option<UnaryOp>)
      requires Valid()
      modifies this`cursor
      ensures Valid()
      ensures var s := G.SkipSpace(old(Abs()).rest);
              op == PrefixAt(s) && Abs() == old(Abs()).(rest := if op.Some? then s[1..] else s)
    {
      Idempotent(Abs().rest);
      var ok := Match("+");
      if ok { return Some(Positive); }
      ok := Match("-");
      if ok { return Some(Negative); }
      ok := Match("~");
      if ok { return Some(BitNot); }
      ok := MatchSingle('!', '=');
      op := if ok then Some(LogicalNot) else None;
    }

    method Conditional() returns (node: int)
      requires Valid()
      modifies this, nodes
      ensures Valid() && (node, Abs()) == ParseConditional(old(Abs()), strtod)
      decreases |text| - cursor, 40
    {
      hide ParseLeft, G.Match, Emit;
      ghost var st := Abs();
      var condition := Left(1);
      if condition < 0 { return -1; }
      var question := Match("?");
      if !question { return condition; }
      var ifTrue := Conditional();
      if ifTrue < 0 { return -1; }
      var colon := Match(":");
      if !colon {
        Fail();
        return -1;
      }
      var ifFalse := Conditional();
      if ifFalse < 0 { return -1; }
      node := AddNode(Node(K3(BytebeatProgram.Conditional), condition, ifTrue, ifFalse));
    }

    method Tighter(level: nat) returns (node: int)
      requires Valid() && 1 <= level <= 10
      modifies this, nodes
      ensures Valid() && (node, Abs()) == ParseTighter(level, old(Abs()), strtod)
      decreases |text| - cursor, 31 - 2 * level
    {
      hide ParseLeft, ParsePower;
      if level < 10 { node := Left(level + 1); } else { node := Power(); }
    }

    method Left(level: nat) returns (left: int)
      requires Valid() && 1 <= level <= 10
      modifies this, nodes
      ensures Valid() && (left, Abs()) == ParseLeft(level, old(Abs()), strtod)
      decreases |text| - cursor, 32 - 2 * level
    {
      hide ParseTighter, Emit, Taken, OperatorAt, G.SkipSpace;
      ghost var st := Abs();
      left := Tighter(level);
      if left < 0 { return -1; }
      while true
        invariant Valid() && cursor >= old(cursor) && left >= 0
        invariant LeftLoop(level, left, Abs(), strtod) == ParseLeft(level, st, strtod)
        decreases |text| - cursor
      {
        ghost var here := Abs();
        var op := TakeOperator(level);
        TakenAdvances(level, here, op, Abs());
        LoopOpens(level, left, here, op, Abs(), strtod);
        if op.None? { return left; }
        var right := Tighter(level);
        if right < 0 { return -1; }
        left := AddNode(Node(K2(Infix(op.value)), left, right, -1));
        if left < 0 { return -1; }
      }
    }

    method Power() returns (node: int)
      requires Valid()
      modifies this, nodes
      ensures Valid() && (node, Abs()) == ParsePower(old(Abs()), strtod)
      decreases |text| - cursor, 10
    {
      hide ParseUnary, G.Match, Emit;
      var left := Unary();
      if left < 0 { return -1; }
      var power := Match("**");
      if !power { return left; }
      var right := Power();
      if right < 0 { return -1; }
      node := AddNode(Node(K2(Infix(BytebeatProgram.Power)), left, right, -1));
    }

    method Unary() returns (node: int)
      requires Valid()
      modifies this, nodes
      ensures Valid() && (node, Abs()) == ParseUnary(old(Abs()), strtod)
      decreases |text| - cursor, 9
    {
      hide ParsePrimary, PrefixAt, Emit, G.SkipSpace;
      var op := TakePrefix();
      if op.None? {
        node := Primary();
        return;
      }
      var child := Unary();
      if child < 0 { return -1; }
      node := AddNode(Node(K1(Prefix(op.value)), child, -1, -1));
    }

    method Primary() returns (node: int)
      requires Valid()
      modifies this, nodes
      ensures Valid() && (node, Abs()) == ParsePrimary(old(Abs()), strtod)
      decreases |text| - cursor, 8
    {
      hide ParseParenthesized, ParseNumber, ParseName, ParseNamed, G.Match;
      var open := Match("(");
      if open {
        node := Parenthesized();
        return;
      }
      ghost var st1 := Abs();
      var saved := cursor;
      node := Number();
      if node >= 0 || failed { return; }
      MissedNumber(st1, strtod);
      cursor := saved;
      assert Abs() == st1;
      var name := Name();
      if name.None? {
        Fail();
        return -1;
      }
      node := Named(name.value);
    }

    method Parenthesized() returns (node: int)
      requires Valid()
      modifies this, nodes
      ensures Valid() && (node, Abs()) == ParseParenthesized(old(Abs()), strtod)
      decreases |text| - cursor, 41
    {
      hide ParseConditional, G.Match;
      depth := depth + 1;
      if depth > MAX_DEPTH {
        Fail();
        return -1;
      }
      node := Conditional();
      depth := depth - 1;
      var close := Match(")");
      if !close {
        Fail();
        return -1;
      }
    }

    method Named(name: string) returns (node: int)
      requires Valid()
      modifies this, nodes
      ensures Valid() && (node, Abs()) == ParseNamed(name, old(Abs()), strtod)
      decreases |text| - cursor, 43
    {
      hide G.Named, G.Match, Emit, ParseArguments, CallNode;
      var meaning := G.Named(name);
      if meaning.Value? {
        node := AddNode(Node(KAtom(meaning.leaf), -1, -1, -1));
        return;
      }
      if meaning.Unknown? {
        Fail();
        return -1;
      }
      var open := Match("(");
      if !open {
        Fail();
        return -1;
      }
      var args := Arguments(Arity(meaning));
      if |args| < Arity(meaning) { return -1; }
      var close := Match(")");
      if !close {
        Fail();
        return -1;
      }
      node := AddNode(CallNode(meaning, args));
    }

    method Arguments(count: nat) returns (args: seq<int>)
      requires Valid()
      modifies this, nodes
      ensures Valid() && (args, Abs()) == ParseArguments(count, [], old(Abs()), strtod)
      decreases |text| - cursor, 42
    {
      hide ParseConditional, G.Match;
      args := [];
      for i := 0 to count
        invariant Valid() && cursor >= old(cursor) && |args| == i
        invariant ParseArguments(count - i, args, Abs(), strtod) == ParseArguments(count, [], old(Abs()), strtod)
      {
        var arg := Conditional();
        if arg < 0 { return; }
        if i + 1 < count {
          var comma := Match(",");
          if !comma {
            Fail();
            return;
          }
        }
        args := args + [arg];
      }
    }
  }

  /** The operator of a level, if one is next, was taken; blanks before it were skipped in any case. */
  ghost predicate Taken(level: nat, before: State, op: Option<BinaryOp>, after: State) {
    var s := G.SkipSpace(before.rest);
    match OperatorAt(level, s)
    case None => op == None && after == before.(rest := s)
    case Some((o, n)) => op == Some(o) && after == before.(rest := s[n..])
  }

  lemma TakenAdvances(level: nat, before: State, op: Option<BinaryOp>, after: State)
    requires Taken(level, before, op, after)
    ensures |after.rest| <= |before.rest| && (op.Some? ==> |after.rest| < |before.rest|)
  {
  }

  lemma LoopOpens(level: nat, left: int, st: State, op: Option<BinaryOp>, after: State, strtod: Strtod)
    requires 1 <= level <= 10 && Taken(level, st, op, after)
    ensures LeftLoop(level, left, st, strtod) ==
            if op.None? then (left, after)
            else
              var (right, st1) := ParseTighter(level, after, strtod);
              if right < 0 then (-1, st1)
              else
                var (node, st2) := Emit(st1, Node(K2(Infix(op.value)), left, right, -1));
                if node < 0 then (-1, st2)
                else if |st2.rest| < |st.rest| then LeftLoop(level, node, st2, strtod) else (left, st)
  {
    hide OperatorAt, ParseTighter, Emit, G.SkipSpace;
  }

  lemma NumberAtDigit(st0: State, strtod: Strtod)
    ensures var s := G.SkipSpace(st0.rest);
            var st := st0.(rest := s);
            ParseNumber(st0, strtod) ==
            if IsPrefixed(s) then ParsePrefixed(st)
            else if s == "" || !(IsDigit(s[0]) || s[0] == '.') then (-1, st)
            else ParseDecimal(st, strtod)
  {
    hide G.SkipSpace;
  }

  lemma Idempotent(s: string)
    ensures G.SkipSpace(G.SkipSpace(s)) == G.SkipSpace(s)
  {
  }

  /** A number that is not there leaves everything but blanks alone. */
  lemma MissedNumber(st: State, strtod: Strtod)
    ensures var (node, st') := ParseNumber(st, strtod);
            node < 0 && !st'.failed ==> st'.nodes == st.nodes && st'.depth == st.depth && st'.failed == st.failed
  {
  }

  /** Compiling with the parser object gives exactly what the grammar says, for every text and every strtod. */
  method Compile(text: string, strtod: Strtod) returns (program: Option<Program>)
    ensures program == G.Compile(text, strtod)
  {
    hide ParseConditional, TreeDepth, WellShaped, G.SkipSpace;
    if text == "" || |text| > MAX_EXPRESSION { return None; }
    var parser := new Parser(text, strtod);
    ghost var st0 := parser.Abs();
    var root := parser.Conditional();
    ghost var st := parser.Abs();
    parser.SkipSpace();
    if !parser.failed && parser.cursor != |text| { parser.Fail(); }
    Soundness.ConditionalGrows(st0, strtod);
    FinishesWell(root, st);
    if parser.failed || root < 0 { return None; }
    var nodes := parser.nodes[..parser.nodeCount];
    var depth := TreeDepth(nodes, root);
    if depth > MAX_DEPTH { return None; }
    program := Some(Program(nodes, root, depth));
  }

  /** Once parsing succeeded the nodes have the shape the depth measure needs. */
  lemma FinishesWell(root: int, st: State)
    requires Soundness.Grown([], root, st.nodes)
    ensures !st.failed && G.SkipSpace(st.rest) == "" && root >= 0 ==> WellShaped(st.nodes) && root < |st.nodes|
  {
    hide WellShaped, G.SkipSpace, Flat;
    if root >= 0 {
      var e :| Soundness.Yields([], root, st.nodes, e);
      assert st.nodes == Flat(e, 0);
      Soundness.LayoutIsShaped(e);
    }
  }
}
