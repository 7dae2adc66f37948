/**
 A printer: the way of writing an expression that needs the fewest parentheses, so that
 every expression within the limits has a text that compiles to it.
 */
module BytebeatPrinter {
  import opened Common
  import opened BytebeatProgram
  import opened BytebeatGrammar
  import opened BytebeatSyntax
  import opened BytebeatRoundTrip

  function HexDigit(d: nat): char
    requires d < 16
  {
    if d < 10 then '0' + d as char else 'a' + (d - 10) as char
  }

  function Hex(n: nat): (s: string)
    ensures |s| >= 1
  {
    if n < 16 then [HexDigit(n)] else Hex(n / 16) + [HexDigit(n % 16)]
  }

  function Name1(f: Function1): string {
    match f
    case Sin => "sin" case Cos => "cos" case Tan => "tan" case Asin => "asin" case Acos => "acos" case Atan => "atan"
    case Abs => "abs" case Floor => "floor" case Ceil => "ceil" case Round => "round" case Sqrt => "sqrt"
    case Log => "log" case Exp => "exp" case Sign => "sign" case Fract => "fract" case Trunc => "trunc"
    case Noise => "noise"
  }

  function Name2(f: Function2): string {
    match f case Atan2 => "atan2" case MinOf => "min" case MaxOf => "max" case PowOf => "pow"
  }

  function PrintedLeaf(leaf: Leaf): Syntax {
    match leaf
    case Constant(Whole(n)) => Number("", "0x" + Hex(n))
    case Constant(Decimal(text)) => Number("", text)
    case Constant(Pi) => Variable(Plain("", "pi"), leaf)
    case Constant(Euler) => Variable(Plain("", "e"), leaf)
    case SampleIndex => Variable(Plain("", "t"), leaf)
    case SampleRate => Variable(Plain("", "sr"), leaf)
    case Seconds => Variable(Plain("", "time"), leaf)
  }

  /** e where a production of the given level is expected. */
  function Printed(e: Expr, level: nat): Syntax
    decreases e, 1
  {
    if Level(Bare(e)) < level then Grouped("", Bare(e), "") else Bare(e)
  }

  function Bare(e: Expr): Syntax
    decreases e, 0
  {
    match e
    case Atom(leaf) => PrintedLeaf(leaf)
    case One(Prefix(op), a) => Prefixed("", op, Printed(a, 12))
    case One(Call1(f), a) => Apply1(f, Plain("", Name1(f)), "", Printed(a, 0), "")
    case Two(Infix(op), a, b) =>
      var l := OperatorLevel(op);
      if op == Power then Binary(Printed(a, 12), "", op, false, Printed(b, 11))
      else Binary(Printed(a, l), "", op, false, Printed(b, l + 1))
    case Two(Call2(f), a, b) => Apply2(f, Plain("", Name2(f)), "", Printed(a, 0), "", Printed(b, 0), "")
    case Three(Conditional, a, b, c) => Choice(Printed(a, 1), "", Printed(b, 0), "", Printed(c, 0))
    case Three(Call3(f), a, b, c) =>
      Apply3(f, Plain("", "clamp"), "", Printed(a, 0), "", Printed(b, 0), "", Printed(c, 0), "")
  }

  /** Whole constants fit 32 bits and decimal ones are spelled as strtod scans them. */
  ghost predicate Printable(e: Expr, strtod: Strtod) {
    match e
    case Atom(Constant(Whole(n))) => n < TWO32
    case Atom(Constant(Decimal(text))) => Base(text) == 0 && Scanned(text, strtod)
    case Atom(_) => true
    case One(_, a) => Printable(a, strtod)
    case Two(_, a, b) => Printable(a, strtod) && Printable(b, strtod)
    case Three(_, a, b, c) => Printable(a, strtod) && Printable(b, strtod) && Printable(c, strtod)
  }

  lemma {:induction false} HexSpells(n: nat)
    ensures Positional(Hex(n), 16) == n && AllDigits(Hex(n), 16)
  {
    hide DigitValue, HexDigit;
    if n < 16 {
      HexDigitValue(n);
      assert Hex(n)[..0] == "" && Positional("", 16) == 0;
    } else {
      var front, last := Hex(n / 16), HexDigit(n % 16);
      HexSpells(n / 16);
      HexDigitValue(n % 16);
      assert Hex(n)[..|Hex(n)| - 1] == front && Hex(n)[|Hex(n)| - 1] == last;
    }
  }

  lemma HexDigitValue(d: nat)
    requires d < 16
    ensures DigitValue(HexDigit(d)) == d
  {
  }

  lemma PrintedLeafMeans(leaf: Leaf, strtod: Strtod)
    requires Printable(Atom(leaf), strtod)
    ensures WellWritten(PrintedLeaf(leaf), strtod) && Meant(PrintedLeaf(leaf)) == Atom(leaf)
  {
    if leaf.Constant? && leaf.value.Whole? {
      PrintedWholeMeans(leaf.value.value, strtod);
    } else {
      hide Scanned, Base, Hex, Positional;
    }
  }

  lemma PrintedWholeMeans(n: nat, strtod: Strtod)
    requires n < TWO32
    ensures Scanned("0x" + Hex(n), strtod) && NumberOf("0x" + Hex(n)) == Constant(Whole(n))
  {
    var s := "0x" + Hex(n);
    HexSpells(n);
    assert Base(s) == 16 && s[2..] == Hex(n);
    hide Hex, Positional, AllDigits, Base;
    SmallRemainder(n);
  }

  lemma SmallRemainder(n: nat)
    requires n < TWO32
    ensures n % TWO32 == n
  {
  }

  lemma PrinterNames(f1: Function1, f2: Function2)
    ensures Name1(f1) in Names1(f1) && Name2(f2) in Names2(f2)
  {
  }

  /** The printed operand is well written, means the operand, and is tight enough for its place. */
  ghost predicate Proper(e: Expr, level: nat, strtod: Strtod) {
    var x := Printed(e, level);
    WellWritten(x, strtod) && Meant(x) == e && Level(x) >= level
  }

  lemma {:induction false} PrintedMeans(e: Expr, level: nat, strtod: Strtod)
    requires Printable(e, strtod) && level <= 13
    ensures Proper(e, level, strtod)
    decreases e, 1
  {
    hide WellWritten, Bare;
    BareMeans(e, strtod);
    GroupingIsWell(Bare(e), strtod);
  }

  lemma GroupingIsWell(x: Syntax, strtod: Strtod)
    ensures WellWritten(x, strtod) ==> WellWritten(Grouped("", x, ""), strtod)
  {
  }

  lemma {:induction false} BareMeans(e: Expr, strtod: Strtod)
    requires Printable(e, strtod)
    ensures WellWritten(Bare(e), strtod) && Meant(Bare(e)) == e
    decreases e, 0
  {
    hide Printed, WellWritten, Meant, Bare, Level, Scanned, Base;
    match e {
      case Atom(leaf) => BareAtomMeans(leaf, strtod);
      case One(op, a) =>
        PrintedMeans(a, 12, strtod);
        PrintedMeans(a, 0, strtod);
        BareOneMeans(op, a, strtod);
      case Two(Infix(op), a, b) =>
        PrintedMeans(a, if op == Power then 12 else OperatorLevel(op), strtod);
        PrintedMeans(b, if op == Power then 11 else OperatorLevel(op) + 1, strtod);
        BareInfixMeans(op, a, b, strtod);
      case Two(Call2(f), a, b) =>
        PrintedMeans(a, 0, strtod);
        PrintedMeans(b, 0, strtod);
        BareCall2Means(f, a, b, strtod);
      case Three(op, a, b, c) =>
        PrintedMeans(a, if op.Conditional? then 1 else 0, strtod);
        PrintedMeans(b, 0, strtod);
        PrintedMeans(c, 0, strtod);
        BareThreeMeans(op, a, b, c, strtod);
    }
  }

  lemma BareAtomMeans(leaf: Leaf, strtod: Strtod)
    requires Printable(Atom(leaf), strtod)
    ensures WellWritten(Bare(Atom(leaf)), strtod) && Meant(Bare(Atom(leaf))) == Atom(leaf)
  {
    hide Scanned, Base, PrintedLeaf;
    PrintedLeafMeans(leaf, strtod);
  }

  lemma BareOneMeans(op: Op1, a: Expr, strtod: Strtod)
    requires Proper(a, 12, strtod) && Proper(a, 0, strtod)
    ensures WellWritten(Bare(One(op, a)), strtod) && Meant(Bare(One(op, a))) == One(op, a)
  {
    hide Printed, Scanned, Names1, Name1;
    if op.Call1? { PrinterNames(op.f1, Atan2); }
  }

  lemma BareInfixMeans(op: BinaryOp, a: Expr, b: Expr, strtod: Strtod)
    requires Proper(a, if op == Power then 12 else OperatorLevel(op), strtod)
    requires Proper(b, if op == Power then 11 else OperatorLevel(op) + 1, strtod)
    ensures var e := Two(Infix(op), a, b); WellWritten(Bare(e), strtod) && Meant(Bare(e)) == e
  {
    hide Printed, Scanned;
  }

  lemma BareCall2Means(f: Function2, a: Expr, b: Expr, strtod: Strtod)
    requires Proper(a, 0, strtod) && Proper(b, 0, strtod)
    ensures var e := Two(Call2(f), a, b); WellWritten(Bare(e), strtod) && Meant(Bare(e)) == e
  {
    hide Printed, Scanned, Names2, Name2;
    PrinterNames(Sin, f);
  }

  lemma BareThreeMeans(op: Op3, a: Expr, b: Expr, c: Expr, strtod: Strtod)
    requires Proper(a, if op.Conditional? then 1 else 0, strtod) && Proper(b, 0, strtod) && Proper(c, 0, strtod)
    ensures var e := Three(op, a, b, c); WellWritten(Bare(e), strtod) && Meant(Bare(e)) == e
  {
    hide Printed, Scanned;
  }

  /** No way of writing an expression in a place of some level nests fewer parentheses than the printer. */
  lemma {:induction false} FewestParentheses(x: Syntax, level: nat, strtod: Strtod)
    requires WellWritten(x, strtod) && level <= Level(x)
    ensures Nesting(Printed(Meant(x), level)) <= Nesting(x)
    decreases x, 1
  {
    hide Printed, Scanned, Names1, Names2, Names3, LeafNames, BlankWord, Blank, NumberOf, Name1, Name2;
    match x {
      case Number(_, spelling) => LeafNeedsNone(NumberOf(spelling), level);
      case Variable(_, leaf) => LeafNeedsNone(leaf, level);
      case Grouped(_, inner, _) =>
        FewestParentheses(inner, 0, strtod);
        OneMoreAtMost(Meant(inner), level);
      case Prefixed(_, op, a) =>
        FewestParentheses(a, 12, strtod);
        SameLevelNeedsNone(Meant(x), level);
      case Binary(a, _, op, _, b) =>
        FewestParentheses(a, if op == Power then 12 else OperatorLevel(op), strtod);
        FewestParentheses(b, if op == Power then 11 else OperatorLevel(op) + 1, strtod);
        SameLevelNeedsNone(Meant(x), level);
      case Choice(a, _, b, _, c) =>
        FewestParentheses(a, 1, strtod);
        FewestParentheses(b, 0, strtod);
        FewestParentheses(c, 0, strtod);
        SameLevelNeedsNone(Meant(x), level);
      case _ => FewestInCall(x, level, strtod);
    }
  }

  lemma {:induction false} FewestInCall(x: Syntax, level: nat, strtod: Strtod)
    requires (x.Apply1? || x.Apply2? || x.Apply3?) && WellWritten(x, strtod) && level <= 13
    ensures Nesting(Printed(Meant(x), level)) <= Nesting(x)
    decreases x, 0
  {
    hide Printed, Scanned, Names1, Names2, Names3, LeafNames, BlankWord, Blank, NumberOf, Name1, Name2;
    SameLevelNeedsNone(Meant(x), level);
    match x {
      case Apply1(f, _, _, a, _) => FewestParentheses(a, 0, strtod);
      case Apply2(f, _, _, a, _, b, _) =>
        FewestParentheses(a, 0, strtod);
        FewestParentheses(b, 0, strtod);
      case Apply3(f, _, _, a, _, b, _, c, _) =>
        FewestParentheses(a, 0, strtod);
        FewestParentheses(b, 0, strtod);
        FewestParentheses(c, 0, strtod);
    }
  }

  lemma LeafNeedsNone(leaf: Leaf, level: nat)
    requires level <= 13
    ensures Nesting(Printed(Atom(leaf), level)) == 0
  {
  }

  lemma OneMoreAtMost(e: Expr, level: nat)
    ensures Nesting(Printed(e, level)) <= Nesting(Printed(e, 0)) + 1
  {
    hide Bare;
  }

  lemma SameLevelNeedsNone(e: Expr, level: nat)
    requires level <= Level(Bare(e))
    ensures Printed(e, level) == Bare(e)
  {
    hide Bare;
  }

  /** The compiler inverts the printer: the printed text of an expression, with decimal constants as strtod scans them,
      compiles exactly when it respects the four limits, and then to that very expression. */
  lemma CompileInvertsPrinting(e: Expr, strtod: Strtod)
    requires Printable(e, strtod)
    ensures var x := Printed(e, 0);
            var program := Compile(Text(x), strtod);
            && (program.Some? <==> |Text(x)| <= MAX_EXPRESSION && Size(e) <= MAX_NODES && Nesting(x) <= MAX_DEPTH
                                   && Depth(e) <= MAX_DEPTH)
            && (program.Some? ==>
                  && program.value == Program(Flat(e, 0), Size(e) - 1, Depth(e))
                  && WellShaped(program.value.nodes)
                  && Denote(program.value.nodes, program.value.root) == e)
  {
    PrintedMeans(e, 0, strtod);
    CompileReadsWriting(Printed(e, 0), "", strtod);
    assert Text(Printed(e, 0)) + "" == Text(Printed(e, 0));
  }
}
