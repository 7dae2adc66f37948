/**
 How expressions are written: concrete syntax trees that hold every choice the language
 leaves to the writer, blanks, spellings and redundant parentheses, with the text of each
 and the expression it means.
 */
module BytebeatSyntax {
  import opened Common
  import opened BytebeatProgram
  import opened BytebeatGrammar

  // ------------------------------------------------------------- the pieces

  /** What isspace accepts in the C locale. */
  predicate BlankChar(c: char) {
    c == ' ' || c == '\t' || c == '\n' || c == '\r' || c as int == 11 || c as int == 12
  }

  predicate Blank(s: string) { forall i :: 0 <= i < |s| ==> BlankChar(s[i]) }

  /** A name, perhaps as a member of Math, with the blanks before its tokens. */
  datatype Word = Plain(blank: string, name: string) | Member(blank: string, dot: string, space: string, name: string)

  /** A written expression. The unnamed strings are the blanks before the tokens of each construct; `strict` writes an
      equality with one more '='. */
  datatype Syntax =
    | Number(blank: string, spelling: string)
    | Variable(word: Word, leaf: Leaf)
    | Grouped(open: string, inner: Syntax, close: string)
    | Prefixed(blank: string, prefix: UnaryOp, a: Syntax)
    | Binary(a: Syntax, blank: string, op: BinaryOp, strict: bool, b: Syntax)
    | Choice(a: Syntax, question: string, b: Syntax, colon: string, c: Syntax)
    | Apply1(f1: Function1, word: Word, open: string, a: Syntax, close: string)
    | Apply2(f2: Function2, word: Word, open: string, a: Syntax, comma: string, b: Syntax, close: string)
    | Apply3(f3: Function3, word: Word, open: string, a: Syntax, comma: string, b: Syntax, comma2: string, c: Syntax,
             close: string)

  // ----------------------------------------------------------- what it says

  function WordText(w: Word): string {
    match w
    case Plain(blank, name) => blank + name
    case Member(blank, dot, space, name) => blank + ("Math" + (dot + ("." + (space + name))))
  }

  function InfixToken(op: BinaryOp, strict: bool): (t: string)
    ensures 1 <= |t| <= 3
  {
    match op
    case Multiply => "*" case Divide => "/" case Modulo => "%" case Add => "+" case Subtract => "-"
    case ShiftLeft => "<<" case ShiftRight => ">>" case ShiftUnsigned => ">>>"
    case Less => "<" case LessEqual => "<=" case Greater => ">" case GreaterEqual => ">="
    case Equal => if strict then "===" else "==" case NotEqual => if strict then "!==" else "!="
    case BitAnd => "&" case BitXor => "^" case BitOr => "|" case LogicalAnd => "&&" case LogicalOr => "||"
    case Power => "**"
  }

  function PrefixToken(op: UnaryOp): char {
    match op case Positive => '+' case Negative => '-' case BitNot => '~' case LogicalNot => '!'
  }

  function Text(x: Syntax): string {
    match x
    case Number(blank, spelling) => blank + spelling
    case Variable(word, _) => WordText(word)
    case Grouped(open, inner, close) => open + ("(" + (Text(inner) + (close + ")")))
    case Prefixed(blank, op, a) => blank + ([PrefixToken(op)] + Text(a))
    case Binary(a, blank, op, strict, b) => Text(a) + (blank + (InfixToken(op, strict) + Text(b)))
    case Choice(a, question, b, colon, c) => Text(a) + (question + ("?" + (Text(b) + (colon + (":" + Text(c))))))
    case Apply1(_, word, open, a, close) => WordText(word) + (open + ("(" + (Text(a) + (close + ")"))))
    case Apply2(_, word, open, a, comma, b, close) =>
      WordText(word) + (open + ("(" + (Text(a) + (comma + ("," + (Text(b) + (close + ")")))))))
    case Apply3(_, word, open, a, comma, b, comma2, c, close) =>
      WordText(word)
      + (open + ("(" + (Text(a) + (comma + ("," + (Text(b) + (comma2 + ("," + (Text(c) + (close + ")"))))))))))
  }

  // ---------------------------------------------------------- what it means

  /** The number that digits spell in a base. */
  function Positional(digits: string, radix: nat): nat {
    if digits == "" then 0
    else Positional(digits[..|digits| - 1], radix) * radix + DigitValue(digits[|digits| - 1])
  }

  predicate AllDigits(digits: string, radix: nat) {
    digits != "" && forall i :: 0 <= i < |digits| ==> DigitValue(digits[i]) < radix
  }

  /** The base a spelling announces by its prefix, 0 for a decimal one. */
  function Base(spelling: string): nat {
    if |spelling| < 2 || spelling[0] != '0' then 0
    else if spelling[1] == 'x' || spelling[1] == 'X' then 16
    else if spelling[1] == 'b' || spelling[1] == 'B' then 2
    else 0
  }

  /** Numbers with a prefix wrap at 32 bits; decimal ones are left to strtod. */
  function NumberOf(spelling: string): Leaf {
    if Base(spelling) == 0 then Constant(Decimal(spelling))
    else Constant(Whole(Positional(spelling[2..], Base(spelling)) % TWO32))
  }

  function Meant(x: Syntax): Expr {
    match x
    case Number(_, spelling) => Atom(NumberOf(spelling))
    case Variable(_, leaf) => Atom(leaf)
    case Grouped(_, inner, _) => Meant(inner)
    case Prefixed(_, op, a) => One(Prefix(op), Meant(a))
    case Binary(a, _, op, _, b) => Two(Infix(op), Meant(a), Meant(b))
    case Choice(a, _, b, _, c) => Three(Conditional, Meant(a), Meant(b), Meant(c))
    case Apply1(f, _, _, a, _) => One(Call1(f), Meant(a))
    case Apply2(f, _, _, a, _, b, _) => Two(Call2(f), Meant(a), Meant(b))
    case Apply3(f, _, _, a, _, b, _, c, _) => Three(Call3(f), Meant(a), Meant(b), Meant(c))
  }

  /** How deeply grouping parentheses are nested; those of calls do not count. */
  function Nesting(x: Syntax): nat {
    match x
    case Number(_, _) => 0
    case Variable(_, _) => 0
    case Grouped(_, inner, _) => Nesting(inner) + 1
    case Prefixed(_, _, a) => Nesting(a)
    case Binary(a, _, _, _, b) => Larger(Nesting(a), Nesting(b))
    case Choice(a, _, b, _, c) => Larger(Larger(Nesting(a), Nesting(b)), Nesting(c))
    case Apply1(_, _, _, a, _) => Nesting(a)
    case Apply2(_, _, _, a, _, b, _) => Larger(Nesting(a), Nesting(b))
    case Apply3(_, _, _, a, _, b, _, c, _) => Larger(Larger(Nesting(a), Nesting(b)), Nesting(c))
  }

  // -------------------------------------------------------- well written

  /** Productions by tightness: 0 conditional, 1..10 left-associative, 11 power, 12 unary, 13 primary. */
  function OperatorLevel(op: BinaryOp): (l: nat)
    ensures 1 <= l <= 11 && (l == 11 <==> op == Power)
  {
    match op
    case LogicalOr => 1
    case LogicalAnd => 2
    case BitOr => 3
    case BitXor => 4
    case BitAnd => 5
    case Equal | NotEqual => 6
    case Less | LessEqual | Greater | GreaterEqual => 7
    case ShiftLeft | ShiftRight | ShiftUnsigned => 8
    case Add | Subtract => 9
    case Multiply | Divide | Modulo => 10
    case Power => 11
  }

  function Level(x: Syntax): (l: nat)
    ensures l <= 13
  {
    match x
    case Prefixed(_, _, _) => 12
    case Binary(_, _, op, _, _) => OperatorLevel(op)
    case Choice(_, _, _, _, _) => 0
    case _ => 13
  }

  function LeafNames(leaf: Leaf): set<string> {
    match leaf
    case SampleIndex => {"t"}
    case SampleRate => {"sr", "sampleRate", "sample_rate"}
    case Seconds => {"time", "seconds"}
    case Constant(Pi) => {"pi", "PI"}
    case Constant(Euler) => {"e", "E"}
    case _ => {}
  }

  function Names1(f: Function1): set<string> {
    match f
    case Sin => {"sin"} case Cos => {"cos"} case Tan => {"tan"} case Asin => {"asin"} case Acos => {"acos"}
    case Atan => {"atan"} case Abs => {"abs"} case Floor => {"floor"} case Ceil => {"ceil"} case Round => {"round"}
    case Sqrt => {"sqrt"} case Log => {"log"} case Exp => {"exp"} case Sign => {"sign"} case Fract => {"fract"}
    case Trunc => {"trunc", "int"} case Noise => {"noise"}
  }

  function Names2(f: Function2): set<string> {
    match f case Atan2 => {"atan2"} case MinOf => {"min"} case MaxOf => {"max"} case PowOf => {"pow"}
  }

  function Names3(f: Function3): set<string> {
    match f case Clamp => {"clamp"}
  }

  predicate BlankWord(w: Word) {
    Blank(w.blank) && (w.Member? ==> Blank(w.dot) && Blank(w.space))
  }

  /** What may come after a number or a name: nothing that could prolong either. */
  predicate Ends(r: string) { r == "" || (!IsWord(r[0]) && r[0] != '.') }

  /** A number as the compiler scans it: with a prefix and digits of its base, or decimal, with strtod stopping exactly
      at its end whatever follows. */
  ghost predicate Scanned(spelling: string, strtod: Strtod) {
    if Base(spelling) != 0 then AllDigits(spelling[2..], Base(spelling))
    else
      && spelling != "" && (IsDigit(spelling[0]) || spelling[0] == '.')
      && forall r :: Ends(r) ==> strtod(spelling + r) == |spelling|
  }

  /** Blanks are blank, names and numbers are proper, and every operand is written as its place demands: at least as
      tightly as the operator binds there, in parentheses otherwise. */
  ghost predicate WellWritten(x: Syntax, strtod: Strtod) {
    match x
    case Number(blank, spelling) => Blank(blank) && Scanned(spelling, strtod)
    case Variable(word, leaf) => BlankWord(word) && word.name in LeafNames(leaf)
    case Grouped(open, inner, close) => Blank(open) && Blank(close) && WellWritten(inner, strtod)
    case Prefixed(blank, _, a) => Blank(blank) && WellWritten(a, strtod) && Level(a) >= 12
    case Binary(a, blank, op, _, b) =>
      && Blank(blank) && WellWritten(a, strtod) && WellWritten(b, strtod)
      && (if op == Power then Level(a) >= 12 && Level(b) >= 11
          else Level(a) >= OperatorLevel(op) && Level(b) > OperatorLevel(op))
    case Choice(a, question, b, colon, c) =>
      && Blank(question) && Blank(colon)
      && WellWritten(a, strtod) && WellWritten(b, strtod) && WellWritten(c, strtod) && Level(a) >= 1
    case Apply1(f, word, open, a, close) =>
      BlankWord(word) && word.name in Names1(f) && Blank(open) && Blank(close) && WellWritten(a, strtod)
    case Apply2(f, word, open, a, comma, b, close) =>
      && BlankWord(word) && word.name in Names2(f) && Blank(open) && Blank(comma) && Blank(close)
      && WellWritten(a, strtod) && WellWritten(b, strtod)
    case Apply3(f, word, open, a, comma, b, comma2, c, close) =>
      && BlankWord(word) && word.name in Names3(f) && Blank(open) && Blank(comma) && Blank(comma2) && Blank(close)
      && WellWritten(a, strtod) && WellWritten(b, strtod) && WellWritten(c, strtod)
  }

  // ------------------------------------------- what may begin and follow a text

  /** A character that cannot prolong an operator. */
  predicate Fresh(c: char) {
    c != '=' && c != '*' && c != '<' && c != '>' && c != '&' && c != '|'
  }

  lemma BlanksAreSpaces(c: char)
    ensures BlankChar(c) <==> IsSpace(c)
  {
    assert '\t' as int == 9 && '\n' as int == 10 && '\r' as int == 13;
  }

  lemma {:induction false} SkipsBlank(blank: string, s: string)
    requires Blank(blank)
    ensures SkipSpace(blank + s) == SkipSpace(s)
  {
    if blank == "" {
      assert blank + s == s;
    } else {
      assert (blank + s)[0] == blank[0] && (blank + s)[1..] == blank[1..] + s;
      BlanksAreSpaces(blank[0]);
      SkipsBlank(blank[1..], s);
    }
  }

  /** Nothing of the text can be prolonged by what a blank or a token begins with. */
  lemma BlankIsFresh(blank: string, s: string)
    requires Blank(blank) && s != ""
    ensures (blank + s)[0] == if blank == "" then s[0] else blank[0]
    ensures blank != "" ==> Fresh((blank + s)[0]) && Ends(blank + s)
  {
    if blank != "" { BlanksAreSpaces(blank[0]); }
  }

  lemma WordOpens(w: Word)
    requires BlankWord(w) && IsIdentifier(w.name)
    ensures WordText(w) != "" && Fresh(WordText(w)[0])
  {
    if w.Plain? { BlankIsFresh(w.blank, w.name); }
    else { BlankIsFresh(w.blank, "Math" + (w.dot + ("." + (w.space + w.name)))); }
  }

  predicate IsIdentifier(name: string) {
    0 < |name| < IDENTIFIER_CAPACITY && IsAlpha(name[0]) && forall i :: 0 <= i < |name| ==> IsWord(name[i])
  }

  lemma LeafNamesAreProper(name: string, leaf: Leaf)
    requires name in LeafNames(leaf)
    ensures IsIdentifier(name) && name != "Math"
  {
  }

  lemma Names1AreProper(name: string, f: Function1)
    requires name in Names1(f)
    ensures IsIdentifier(name) && name != "Math"
  {
  }

  lemma OtherNamesAreProper(name: string, f2: Function2, f3: Function3)
    requires name in Names2(f2) || name in Names3(f3)
    ensures IsIdentifier(name) && name != "Math"
  {
  }

  lemma ProperNames(name: string, leaf: Leaf, f1: Function1, f2: Function2, f3: Function3)
    requires name in LeafNames(leaf) || name in Names1(f1) || name in Names2(f2) || name in Names3(f3)
    ensures IsIdentifier(name) && name != "Math"
  {
    hide LeafNames, Names1, Names2, Names3, IsIdentifier;
    if name in LeafNames(leaf) { LeafNamesAreProper(name, leaf); }
    else if name in Names1(f1) { Names1AreProper(name, f1); }
    else { OtherNamesAreProper(name, f2, f3); }
  }

  lemma {:induction false} TextOpens(x: Syntax, strtod: Strtod)
    requires WellWritten(x, strtod)
    ensures Text(x) != "" && Fresh(Text(x)[0])
    decreases x
  {
    match x {
      case Number(blank, spelling) => BlankIsFresh(blank, spelling);
      case Variable(word, leaf) =>
        ProperNames(word.name, leaf, Sin, Atan2, Clamp);
        WordOpens(word);
      case Grouped(open, inner, close) => BlankIsFresh(open, "(" + (Text(inner) + (close + ")")));
      case Prefixed(blank, op, a) => BlankIsFresh(blank, [PrefixToken(op)] + Text(a));
      case Binary(a, blank, op, strict, b) => TextOpens(a, strtod);
      case Choice(a, question, b, colon, c) => TextOpens(a, strtod);
      case Apply1(f, word, _, _, _) =>
        ProperNames(word.name, SampleIndex, f, Atan2, Clamp);
        WordOpens(word);
      case Apply2(f, word, _, _, _, _, _) =>
        ProperNames(word.name, SampleIndex, Sin, f, Clamp);
        WordOpens(word);
      case Apply3(f, word, _, _, _, _, _, _, _) =>
        ProperNames(word.name, SampleIndex, Sin, Atan2, f);
        WordOpens(word);
    }
  }

  /** No operator of `level` or tighter begins the rest of the text. */
  predicate NothingAt(level: nat, r: string) {
    && (forall l :: 1 <= l <= 10 && level <= l ==> OperatorAt(l, r).None?)
    && (level <= 11 ==> !Starts(r, "**"))
    && (level == 0 ==> !Starts(r, "?"))
  }

  lemma ClosedByPunctuation(r: string)
    requires r == "" || r[0] == ')' || r[0] == ',' || r[0] == ':'
    ensures Ends(r) && NothingAt(0, r)
  {
  }

  /** An infix token before an operand is read as that operator, and as nothing tighter. */
  lemma TokenIsRead(op: BinaryOp, strict: bool, s: string)
    requires op != Power && s != "" && Fresh(s[0])
    ensures var l, t := OperatorLevel(op), InfixToken(op, strict);
            && Ends(t + s) && NothingAt(l + 1, t + s) && !IsSpace((t + s)[0])
            && OperatorAt(l, t + s) == Some((op, |t|)) && (t + s)[|t|..] == s
  {
    var t := InfixToken(op, strict);
    var r, n := t + s, |t|;
    assert r[n..] == s && r[n] == s[0];
    assert r[0] == t[0];
    if n > 1 { assert r[1] == t[1]; }
    if n > 2 { assert r[2] == t[2]; }
    forall l | 1 <= l <= 10 && OperatorLevel(op) + 1 <= l ensures OperatorAt(l, r).None? { NotTighter(op, strict, s, l); }
    ReadAtItsLevel(op, strict, s);
  }

  lemma NotTighter(op: BinaryOp, strict: bool, s: string, l: nat)
    requires op != Power && s != "" && Fresh(s[0]) && OperatorLevel(op) < l <= 10
    ensures OperatorAt(l, InfixToken(op, strict) + s).None?
  {
    var t := InfixToken(op, strict);
    var r, n := t + s, |t|;
    assert r[n] == s[0] && r[0] == t[0];
    if n > 1 { assert r[1] == t[1]; }
  }

  lemma ReadAtItsLevel(op: BinaryOp, strict: bool, s: string)
    requires op != Power && s != "" && Fresh(s[0])
    ensures OperatorAt(OperatorLevel(op), InfixToken(op, strict) + s) == Some((op, |InfixToken(op, strict)|))
  {
    var t := InfixToken(op, strict);
    var r, n := t + s, |t|;
    assert r[..n] == t;
    assert r[n] == s[0] && r[0] == t[0];
    if n > 1 { assert r[1] == t[1] && r[..2] == [r[0], r[1]]; }
    if n > 2 { assert r[2] == t[2] && r[..3] == [r[0], r[1], r[2]]; }
    assert r[..1] == [r[0]];
    assert n == 1 && |r| > 1 ==> r[..2] == [r[0], s[0]];
    assert n == 2 && |r| > 2 ==> r[..3] == [r[0], r[1], s[0]];
  }
}
