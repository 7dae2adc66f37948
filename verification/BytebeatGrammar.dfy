/**
 The recursive-descent grammar as functions: each production takes the parser's
 state (what is left of the text, the nodes emitted so far, the nesting of
 parentheses, the failure flag) to a node index, -1 for "none", and the next state.
 `strtod` stands for the C library's decimal scanner: how many characters of a text
 it consumes.
 */
module BytebeatGrammar {
  import opened Common
  import opened BytebeatProgram

  const MAX_EXPRESSION := 1024
  const IDENTIFIER_CAPACITY := 32

  type Strtod = string -> nat

  datatype State = State(rest: string, nodes: seq<Node>, depth: int, failed: bool)

  // ------------------------------------------------------------------ text

  predicate IsSpace(c: char) { c == ' ' || 9 <= c as int <= 13 }
  predicate IsDigit(c: char) { '0' <= c <= '9' }
  predicate IsAlpha(c: char) { 'a' <= c <= 'z' || 'A' <= c <= 'Z' }
  predicate IsWord(c: char) { IsAlpha(c) || IsDigit(c) || c == '_' }

  function SkipSpace(s: string): (r: string)
    ensures |r| <= |s|
    ensures r == "" || !IsSpace(r[0])
  {
    if s != "" && IsSpace(s[0]) then SkipSpace(s[1..]) else s
  }

  predicate Starts(s: string, token: string) {
    |token| <= |s| && s[..|token|] == token
  }

  /** s begins with the one character c, not followed by `reject`. */
  predicate StartsSingle(s: string, c: char, reject: char) {
    s != "" && s[0] == c && !(|s| > 1 && s[1] == reject)
  }

  /** Skips blanks, then the token if it is next. */
  function Match(st: State, token: string): (r: (bool, State))
    ensures |r.1.rest| <= |st.rest| - (if r.0 then |token| else 0)
  {
    var s := SkipSpace(st.rest);
    if Starts(s, token) then (true, st.(rest := s[|token|..])) else (false, st.(rest := s))
  }

  /** How many leading word characters. */
  function WordLength(s: string): (n: nat)
    ensures n <= |s|
    ensures forall i :: 0 <= i < n ==> IsWord(s[i])
    ensures n < |s| ==> !IsWord(s[n])
  {
    if s != "" && IsWord(s[0]) then 1 + WordLength(s[1..]) else 0
  }

  function DigitValue(c: char): nat {
    if IsDigit(c) then c as int - '0' as int
    else if 'a' <= c <= 'f' then c as int - 'a' as int + 10
    else if 'A' <= c <= 'F' then c as int - 'A' as int + 10
    else 99
  }

  /** How many leading digits of a base, and their value in 32-bit arithmetic on top of `value`. */
  function DigitRun(s: string, radix: nat): (n: nat)
    ensures n <= |s|
  {
    if s != "" && DigitValue(s[0]) < radix then 1 + DigitRun(s[1..], radix) else 0
  }

  function Accumulate(digits: string, radix: nat, value: nat): nat
    decreases |digits|
  {
    if digits == "" then value else Accumulate(digits[1..], radix, (value * radix + DigitValue(digits[0])) % TWO32)
  }

  // ------------------------------------------------------------- operators

  /** The operator of a precedence level (1 loosest, 10 tightest) that a text begins with, and its length. */
  function OperatorAt(level: nat, s: string): (r: Option<(BinaryOp, nat)>)
    ensures r.Some? ==> 1 <= r.value.1 <= |s|
  {
    match level
    case 1 => if Starts(s, "||") then Some((LogicalOr, 2)) else None
    case 2 => if Starts(s, "&&") then Some((LogicalAnd, 2)) else None
    case 3 => if StartsSingle(s, '|', '|') then Some((BitOr, 1)) else None
    case 4 => if Starts(s, "^") then Some((BitXor, 1)) else None
    case 5 => if StartsSingle(s, '&', '&') then Some((BitAnd, 1)) else None
    case 6 =>
      if Starts(s, "===") then Some((Equal, 3))
      else if Starts(s, "==") then Some((Equal, 2))
      else if Starts(s, "!==") then Some((NotEqual, 3))
      else if Starts(s, "!=") then Some((NotEqual, 2))
      else None
    case 7 =>
      if Starts(s, "<=") then Some((LessEqual, 2))
      else if Starts(s, ">=") then Some((GreaterEqual, 2))
      else if StartsSingle(s, '<', '<') then Some((Less, 1))
      else if StartsSingle(s, '>', '>') then Some((Greater, 1))
      else None
    case 8 =>
      if Starts(s, ">>>") then Some((ShiftUnsigned, 3))
      else if Starts(s, "<<") then Some((ShiftLeft, 2))
      else if Starts(s, ">>") then Some((ShiftRight, 2))
      else None
    case 9 =>
      if Starts(s, "+") then Some((Add, 1))
      else if Starts(s, "-") then Some((Subtract, 1))
      else None
    case 10 =>
      if StartsSingle(s, '*', '*') then Some((Multiply, 1))
      else if Starts(s, "/") then Some((Divide, 1))
      else if Starts(s, "%") then Some((Modulo, 1))
      else None
    case _ => None
  }

  /** The prefix operator a text begins with. */
  function PrefixAt(s: string): (r: Option<UnaryOp>)
    ensures r.Some? ==> s != ""
  {
    if Starts(s, "+") then Some(Positive)
    else if Starts(s, "-") then Some(Negative)
    else if Starts(s, "~") then Some(BitNot)
    else if StartsSingle(s, '!', '=') then Some(LogicalNot)
    else None
  }

  /** What a name stands for: a leaf, or a function to be applied. */
  datatype Meaning = Value(leaf: Leaf) | Unary1(f1: Function1) | Binary2(f2: Function2) | Ternary3(f3: Function3) | Unknown

  function Named(name: string): Meaning {
    if name == "t" then Value(SampleIndex)
    else if name == "sr" || name == "sampleRate" || name == "sample_rate" then Value(BytebeatProgram.SampleRate)
    else if name == "time" || name == "seconds" then Value(Seconds)
    else if name == "pi" || name == "PI" then Value(Constant(Pi))
    else if name == "e" || name == "E" then Value(Constant(Euler))
    else FunctionNamed(name)
  }

  function FunctionNamed(name: string): Meaning {
    if name == "sin" then Unary1(Sin) else if name == "cos" then Unary1(Cos) else if name == "tan" then Unary1(Tan)
    else if name == "asin" then Unary1(Asin) else if name == "acos" then Unary1(Acos)
    else if name == "atan" then Unary1(Atan) else if name == "atan2" then Binary2(Atan2)
    else if name == "abs" then Unary1(Abs) else if name == "floor" then Unary1(Floor)
    else if name == "ceil" then Unary1(Ceil) else if name == "round" then Unary1(Round)
    else if name == "sqrt" then Unary1(Sqrt) else if name == "log" then Unary1(Log) else if name == "exp" then Unary1(Exp)
    else if name == "min" then Binary2(MinOf) else if name == "max" then Binary2(MaxOf)
    else if name == "pow" then Binary2(PowOf) else if name == "clamp" then Ternary3(Clamp)
    else if name == "sign" then Unary1(Sign) else if name == "fract" then Unary1(Fract)
    else if name == "trunc" || name == "int" then Unary1(Trunc) else if name == "noise" then Unary1(Noise)
    else Unknown
  }

  function Arity(m: Meaning): nat {
    match m case Value(_) => 0 case Unary1(_) => 1 case Binary2(_) => 2 case Ternary3(_) => 3 case Unknown => 0
  }

  // ----------------------------------------------------------- productions

  function Fail(st: State): State { st.(failed := true) }

  function Emit(st: State, node: Node): (r: (int, State))
    ensures r.1.rest == st.rest
  {
    if |st.nodes| >= MAX_NODES then (-1, Fail(st)) else (|st.nodes|, st.(nodes := st.nodes + [node]))
  }

  function EmitLeaf(st: State, leaf: Leaf): (r: (int, State))
    ensures r.1.rest == st.rest
  {
    Emit(st, Node(KAtom(leaf), -1, -1, -1))
  }

  predicate IsPrefixed(s: string) {
    |s| >= 2 && s[0] == '0' && (s[1] == 'x' || s[1] == 'X' || s[1] == 'b' || s[1] == 'B')
  }

  /** Digits of base 16 or 2 after their prefix, valued modulo 2^32. */
  function ParsePrefixed(st: State): (r: (int, State))
    requires IsPrefixed(st.rest)
    ensures |r.1.rest| <= |st.rest|
  {
    var s := st.rest;
    var radix := if s[1] == 'x' || s[1] == 'X' then 16 else 2;
    var n := DigitRun(s[2..], radix);
    if n == 0 then (-1, Fail(st))
    else EmitLeaf(st.(rest := s[2 + n..]), Constant(Whole(Accumulate(s[2..2 + n], radix, 0))))
  }

  /** Whatever strtod accepts, if it accepts anything. */
  function ParseDecimal(st: State, strtod: Strtod): (r: (int, State))
    ensures |r.1.rest| <= |st.rest|
  {
    var n := strtod(st.rest);
    if n == 0 || n > |st.rest| then (-1, st)
    else EmitLeaf(st.(rest := st.rest[n..]), Constant(Decimal(st.rest[..n])))
  }

  /** A number, prefixed or decimal. Without one the state is left alone but for blanks. */
  function ParseNumber(st0: State, strtod: Strtod): (r: (int, State))
    ensures |r.1.rest| <= |st0.rest|
  {
    var s := SkipSpace(st0.rest);
    var st := st0.(rest := s);
    if IsPrefixed(s) then ParsePrefixed(st)
    else if s == "" || !(IsDigit(s[0]) || s[0] == '.') then (-1, st)
    else ParseDecimal(st, strtod)
  }

  /** An identifier; one that does not fit the buffer fails the parse. */
  function ParseIdentifier(st0: State): (r: (Option<string>, State))
    ensures |r.1.rest| <= |st0.rest| && (r.0.Some? ==> |r.1.rest| < |st0.rest|)
  {
    var s := SkipSpace(st0.rest);
    var st := st0.(rest := s);
    if s == "" || !(IsAlpha(s[0]) || s[0] == '_') then (None, st)
    else
      var n := WordLength(s);
      assert n > 0;
      if n + 1 > IDENTIFIER_CAPACITY then (None, Fail(st.(rest := s[n..])))
      else (Some(s[..n]), st.(rest := s[n..]))
  }

  /** The name at the cursor, with an optional "Math." before it. */
  function ParseName(st: State): (r: (Option<string>, State))
    ensures |r.1.rest| <= |st.rest| && (r.0.Some? ==> |r.1.rest| < |st.rest|)
  {
    var (name, st1) := ParseIdentifier(st);
    if name == Some("Math") then
      var (dot, st2) := Match(st1, ".");
      if !dot then (name, st2)
      else
        var (member, st3) := ParseIdentifier(st2);
        if member.None? then (None, Fail(st3)) else (member, st3)
    else (name, st1)
  }

  function ParseConditional(st: State, strtod: Strtod): (r: (int, State))
    ensures |r.1.rest| <= |st.rest|
    decreases |st.rest|, 40
  {
    var (a, st1) := ParseLeft(1, st, strtod);
    if a < 0 then (-1, st1)
    else
      var (question, st2) := Match(st1, "?");
      if !question then (a, st2)
      else
        var (b, st3) := ParseConditional(st2, strtod);
        if b < 0 then (-1, st3)
        else
          var (colon, st4) := Match(st3, ":");
          if !colon then (-1, Fail(st4))
          else
            var (c, st5) := ParseConditional(st4, strtod);
            if c < 0 then (-1, st5) else Emit(st5, Node(K3(Conditional), a, b, c))
  }

  /** The production one level tighter than left-associative level `level`. */
  function ParseTighter(level: nat, st: State, strtod: Strtod): (r: (int, State))
    requires 1 <= level <= 10
    ensures |r.1.rest| <= |st.rest|
    decreases |st.rest|, 31 - 2 * level
  {
    if level < 10 then ParseLeft(level + 1, st, strtod) else ParsePower(st, strtod)
  }

  function ParseLeft(level: nat, st: State, strtod: Strtod): (r: (int, State))
    requires 1 <= level <= 10
    ensures |r.1.rest| <= |st.rest|
    decreases |st.rest|, 32 - 2 * level
  {
    var (left, st1) := ParseTighter(level, st, strtod);
    if left < 0 then (-1, st1) else LeftLoop(level, left, st1, strtod)
  }

  /** The loop of a left-associative level, with `left` parsed so far. */
  function LeftLoop(level: nat, left: int, st: State, strtod: Strtod): (r: (int, State))
    requires 1 <= level <= 10
    ensures |r.1.rest| <= |st.rest|
    decreases |st.rest|, 0
  {
    var s := SkipSpace(st.rest);
    match OperatorAt(level, s)
    case None => (left, st.(rest := s))
    case Some((op, n)) =>
      var (right, st1) := ParseTighter(level, st.(rest := s[n..]), strtod);
      if right < 0 then (-1, st1)
      else
        var (node, st2) := Emit(st1, Node(K2(Infix(op)), left, right, -1));
        if node < 0 then (-1, st2) else LeftLoop(level, node, st2, strtod)
  }

  function ParsePower(st: State, strtod: Strtod): (r: (int, State))
    ensures |r.1.rest| <= |st.rest|
    decreases |st.rest|, 10
  {
    var (left, st1) := ParseUnary(st, strtod);
    if left < 0 then (-1, st1)
    else
      var (power, st2) := Match(st1, "**");
      if !power then (left, st2)
      else
        var (right, st3) := ParsePower(st2, strtod);
        if right < 0 then (-1, st3) else Emit(st3, Node(K2(Infix(Power)), left, right, -1))
  }

  function ParseUnary(st: State, strtod: Strtod): (r: (int, State))
    ensures |r.1.rest| <= |st.rest|
    decreases |st.rest|, 9
  {
    var s := SkipSpace(st.rest);
    match PrefixAt(s)
    case Some(op) =>
      var (child, st1) := ParseUnary(st.(rest := s[1..]), strtod);
      if child < 0 then (-1, st1) else Emit(st1, Node(K1(Prefix(op)), child, -1, -1))
    case None => ParsePrimary(st.(rest := s), strtod)
  }

  function ParsePrimary(st: State, strtod: Strtod): (r: (int, State))
    ensures |r.1.rest| <= |st.rest|
    decreases |st.rest|, 8
  {
    var (open, st1) := Match(st, "(");
    if open then ParseParenthesized(st1, strtod)
    else
      var (number, st2) := ParseNumber(st1, strtod);
      if number >= 0 || st2.failed then (number, st2)
      else
        var (name, st3) := ParseName(st1);
        if name.None? then (-1, Fail(st3)) else ParseNamed(name.value, st3, strtod)
  }

  /** After an opening parenthesis. */
  function ParseParenthesized(st: State, strtod: Strtod): (r: (int, State))
    ensures |r.1.rest| <= |st.rest|
    decreases |st.rest|, 41
  {
    var st1 := st.(depth := st.depth + 1);
    if st1.depth > MAX_DEPTH then (-1, Fail(st1))
    else
      var (node, st2) := ParseConditional(st1, strtod);
      var (close, st3) := Match(st2.(depth := st2.depth - 1), ")");
      if !close then (-1, Fail(st3)) else (node, st3)
  }

  /** After a name: a leaf, or a function and its arguments. */
  function ParseNamed(name: string, st: State, strtod: Strtod): (r: (int, State))
    ensures |r.1.rest| <= |st.rest|
    decreases |st.rest|, 43
  {
    var meaning := Named(name);
    match meaning
    case Value(leaf) => EmitLeaf(st, leaf)
    case Unknown => (-1, Fail(st))
    case _ =>
      var (open, st1) := Match(st, "(");
      if !open then (-1, Fail(st1))
      else
        var (args, st2) := ParseArguments(Arity(meaning), [], st1, strtod);
        if |args| < Arity(meaning) then (-1, st2)
        else
          var (close, st3) := Match(st2, ")");
          if !close then (-1, Fail(st3)) else Emit(st3, CallNode(meaning, args))
  }

  function CallNode(m: Meaning, args: seq<int>): Node
    requires |args| >= Arity(m)
  {
    match m
    case Unary1(f) => Node(K1(Call1(f)), args[0], -1, -1)
    case Binary2(f) => Node(K2(Call2(f)), args[0], args[1], -1)
    case Ternary3(f) => Node(K3(Call3(f)), args[0], args[1], args[2])
    case _ => Node(KAtom(Constant(Whole(0))), -1, -1, -1)
  }

  /** `left` more arguments, separated by commas; fewer come back when one is missing. */
  function ParseArguments(left: nat, args: seq<int>, st: State, strtod: Strtod): (r: (seq<int>, State))
    ensures |r.1.rest| <= |st.rest|
    ensures |r.0| <= |args| + left
    decreases |st.rest|, 42, left
  {
    if left == 0 then (args, st)
    else
      var (arg, st1) := ParseConditional(st, strtod);
      if arg < 0 then (args, st1)
      else if left == 1 then (args + [arg], st1)
      else
        var (comma, st2) := Match(st1, ",");
        if !comma then (args, Fail(st2)) else ParseArguments(left - 1, args + [arg], st2, strtod)
  }

  // -------------------------------------------------------------- compiling

  /** What a finished parse becomes. The shape test only makes the depth measure total here; BytebeatSoundness
      shows that it never decides the outcome. */
  function Finish(root: int, st: State): Option<Program> {
    if st.failed || SkipSpace(st.rest) != "" || root < 0 || !WellShaped(st.nodes) || root >= |st.nodes| then None
    else
      var depth := TreeDepth(st.nodes, root);
      if depth > MAX_DEPTH then None else Some(Program(st.nodes, root, depth))
  }

  /** The whole compiler: the program, or nothing. */
  function Compile(text: string, strtod: Strtod): Option<Program> {
    if text == "" || |text| > MAX_EXPRESSION then None
    else
      var (root, st) := ParseConditional(State(text, [], 0, false), strtod);
      Finish(root, st)
  }
}
