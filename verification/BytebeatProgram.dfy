/**
 Expression trees, the flat node arrays they compile to, and evaluation of both.
 Numbers are left uninterpreted: a Semantics says what constants, operators and
 functions mean.
 */
module BytebeatProgram {
  import opened Common

  const MAX_NODES := 512
  const MAX_DEPTH := 48
  const MAX_SAMPLES := 262144
  const MAX_RENDER_OPERATIONS := 8388608

  /** A constant as the source text gives it. */
  datatype Literal = Whole(value: nat) | Decimal(text: string) | Pi | Euler

  datatype Leaf = Constant(value: Literal) | SampleIndex | SampleRate | Seconds

  datatype UnaryOp = Positive | Negative | BitNot | LogicalNot

  datatype BinaryOp =
    | Multiply | Divide | Modulo | Add | Subtract
    | ShiftLeft | ShiftRight | ShiftUnsigned
    | Less | LessEqual | Greater | GreaterEqual | Equal | NotEqual
    | BitAnd | BitXor | BitOr | LogicalAnd | LogicalOr | Power

  datatype Function1 =
    | Sin | Cos | Tan | Asin | Acos | Atan | Abs | Floor | Ceil | Round | Sqrt | Log | Exp
    | Sign | Fract | Trunc | Noise
  datatype Function2 = Atan2 | MinOf | MaxOf | PowOf
  datatype Function3 = Clamp

  datatype Op1 = Prefix(unary: UnaryOp) | Call1(f1: Function1)
  datatype Op2 = Infix(binary: BinaryOp) | Call2(f2: Function2)
  datatype Op3 = Conditional | Call3(f3: Function3)

  datatype Expr =
    | Atom(leaf: Leaf)
    | One(op1: Op1, a: Expr)
    | Two(op2: Op2, a: Expr, b: Expr)
    | Three(op3: Op3, a: Expr, b: Expr, c: Expr)

  // ------------------------------------------------------------ node arrays

  datatype Kind = KAtom(leaf: Leaf) | K1(op1: Op1) | K2(op2: Op2) | K3(op3: Op3)

  /** A node and the indices of its children; -1 is "no child". */
  datatype Node = Node(kind: Kind, a: int, b: int, c: int)

  function Size(e: Expr): (n: nat)
    ensures n >= 1
  {
    match e
    case Atom(_) => 1
    case One(_, a) => Size(a) + 1
    case Two(_, a, b) => Size(a) + Size(b) + 1
    case Three(_, a, b, c) => Size(a) + Size(b) + Size(c) + 1
  }

  function Larger(a: nat, b: nat): nat { if a > b then a else b }

  function Depth(e: Expr): (n: nat)
    ensures 1 <= n <= Size(e)
  {
    match e
    case Atom(_) => 1
    case One(_, a) => Depth(a) + 1
    case Two(_, a, b) => Larger(Depth(a), Depth(b)) + 1
    case Three(_, a, b, c) => Larger(Larger(Depth(a), Depth(b)), Depth(c)) + 1
  }

  // A tree is laid out as the layouts of its up to three subtrees, then its root.

  function First(e: Expr, base: nat): (nodes: seq<Node>)
    ensures |nodes| == if e.Atom? then 0 else Size(e.a)
    decreases e, 0
  {
    if e.Atom? then [] else Flat(e.a, base)
  }

  function Second(e: Expr, base: nat): (nodes: seq<Node>)
    ensures |nodes| == if e.Two? || e.Three? then Size(e.b) else 0
    decreases e, 0
  {
    if e.Two? || e.Three? then Flat(e.b, base + Size(e.a)) else []
  }

  function Third(e: Expr, base: nat): (nodes: seq<Node>)
    ensures |nodes| == if e.Three? then Size(e.c) else 0
    decreases e, 0
  {
    if e.Three? then Flat(e.c, base + Size(e.a) + Size(e.b)) else []
  }

  function RootNode(e: Expr, base: nat): Node {
    match e
    case Atom(leaf) => Node(KAtom(leaf), -1, -1, -1)
    case One(op, a) => Node(K1(op), base + Size(a) - 1, -1, -1)
    case Two(op, a, b) => Node(K2(op), base + Size(a) - 1, base + Size(a) + Size(b) - 1, -1)
    case Three(op, a, b, c) =>
      Node(K3(op), base + Size(a) - 1, base + Size(a) + Size(b) - 1, base + Size(a) + Size(b) + Size(c) - 1)
  }

  /** The nodes of a tree in post-order, its first one at index `base` and its root last. */
  function Flat(e: Expr, base: nat): (nodes: seq<Node>)
    ensures |nodes| == Size(e)
    decreases e, 1
  {
    First(e, base) + (Second(e, base) + (Third(e, base) + [RootNode(e, base)]))
  }

  /** A node at index k has the children its kind calls for, all of them before it. */
  predicate NodeShaped(n: Node, k: int) {
    match n.kind
    case KAtom(_) => n.a == -1 && n.b == -1 && n.c == -1
    case K1(_) => 0 <= n.a < k && n.b == -1 && n.c == -1
    case K2(_) => 0 <= n.a < k && 0 <= n.b < k && n.c == -1
    case K3(_) => 0 <= n.a < k && 0 <= n.b < k && 0 <= n.c < k
  }

  predicate WellShaped(nodes: seq<Node>) {
    forall k :: 0 <= k < |nodes| ==> NodeShaped(nodes[k], k)
  }

  function Mentions(n: Node, i: int): nat {
    (if n.a == i then 1 else 0) + (if n.b == i then 1 else 0) + (if n.c == i then 1 else 0)
  }

  /** How often index i is a child among the nodes from lo up to hi. */
  function Uses(nodes: seq<Node>, lo: nat, hi: nat, i: nat): nat
    requires hi <= |nodes|
  {
    if hi <= lo then 0 else Uses(nodes, lo, hi - 1, i) + Mentions(nodes[hi - 1], i)
  }

  lemma {:induction false} UsesSplit(nodes: seq<Node>, lo: nat, mid: nat, hi: nat, i: nat)
    requires lo <= mid <= hi <= |nodes|
    ensures Uses(nodes, lo, hi, i) == Uses(nodes, lo, mid, i) + Uses(nodes, mid, hi, i)
  {
    if mid < hi { UsesSplit(nodes, lo, mid, hi - 1, i); }
  }

  // --------------------------------------------------------- back to a tree

  /** The tree below node i. */
  function Denote(nodes: seq<Node>, i: nat): Expr
    requires WellShaped(nodes) && i < |nodes|
    decreases i
  {
    var n := nodes[i];
    assert NodeShaped(n, i);
    match n.kind
    case KAtom(leaf) => Atom(leaf)
    case K1(op) => One(op, Denote(nodes, n.a))
    case K2(op) => Two(op, Denote(nodes, n.a), Denote(nodes, n.b))
    case K3(op) => Three(op, Denote(nodes, n.a), Denote(nodes, n.b), Denote(nodes, n.c))
  }

  /** Every node of e is where its layout from `base` puts it. */
  predicate HoldsTree(nodes: seq<Node>, e: Expr, base: nat) {
    && base + Size(e) <= |nodes|
    && nodes[base + Size(e) - 1] == RootNode(e, base)
    && match e
       case Atom(_) => true
       case One(_, a) => HoldsTree(nodes, a, base)
       case Two(_, a, b) => HoldsTree(nodes, a, base) && HoldsTree(nodes, b, base + Size(a))
       case Three(_, a, b, c) =>
         HoldsTree(nodes, a, base) && HoldsTree(nodes, b, base + Size(a)) && HoldsTree(nodes, c, base + Size(a) + Size(b))
  }

  predicate PartsHeld(nodes: seq<Node>, e: Expr, base: nat) {
    && (!e.Atom? ==> HoldsTree(nodes, e.a, base))
    && (e.Two? || e.Three? ==> HoldsTree(nodes, e.b, base + Size(e.a)))
    && (e.Three? ==> HoldsTree(nodes, e.c, base + Size(e.a) + Size(e.b)))
  }

  lemma HeldByParts(nodes: seq<Node>, e: Expr, base: nat)
    ensures HoldsTree(nodes, e, base)
       <==> base + Size(e) <= |nodes| && nodes[base + Size(e) - 1] == RootNode(e, base) && PartsHeld(nodes, e, base)
  {
    hide RootNode, Flat, First, Second, Third;
    match e {
      case Atom(_) =>
      case One(_, a) =>
      case Two(_, a, b) =>
      case Three(_, a, b, c) =>
    }
  }

  lemma Regroup(before: seq<Node>, x: seq<Node>, rest: seq<Node>, after: seq<Node>)
    ensures before + (x + rest) + after == (before + x) + rest + after == (before + x) + (rest + after)
  {
  }

  lemma {:induction false} FlatIsHeld(before: seq<Node>, e: Expr, after: seq<Node>)
    ensures HoldsTree(before + Flat(e, |before|) + after, e, |before|)
    decreases e
  {
    hide HoldsTree, RootNode, Flat;
    var base := |before|;
    var x, y, z, n := First(e, base), Second(e, base), Third(e, base), RootNode(e, base);
    var nodes := before + Flat(e, base) + after;
    assert nodes == before + (x + (y + (z + [n]))) + after by { FlatParts(e, base); }
    Regroup(before, x, y + (z + [n]), after);
    Regroup(before + x, y, z + [n], after);
    Regroup(before + x + y, z, [n], after);
    assert nodes[base + Size(e) - 1] == n;
    if !e.Atom? { FlatIsHeld(before, e.a, y + (z + [n]) + after); }
    if e.Two? || e.Three? { FlatIsHeld(before + x, e.b, z + [n] + after); }
    if e.Three? { FlatIsHeld(before + x + y, e.c, [n] + after); }
    HeldByParts(nodes, e, base);
  }

  lemma FlatParts(e: Expr, base: nat)
    ensures Flat(e, base) == First(e, base) + (Second(e, base) + (Third(e, base) + [RootNode(e, base)]))
  {
  }

  function Unit(b: bool): nat { if b then 1 else 0 }

  lemma OneRange(nodes: seq<Node>, base: nat, root: nat, i: nat)
    requires base < root < |nodes|
    requires Uses(nodes, base, root, i) == Unit(base <= i < root - 1)
    requires nodes[root].a == root - 1 && nodes[root].b == -1 && nodes[root].c == -1
    ensures Uses(nodes, base, root + 1, i) == Unit(base <= i < root)
  {
  }

  lemma TwoRanges(nodes: seq<Node>, base: nat, mid: nat, root: nat, i: nat)
    requires base < mid < root < |nodes|
    requires Uses(nodes, base, mid, i) == Unit(base <= i < mid - 1)
    requires Uses(nodes, mid, root, i) == Unit(mid <= i < root - 1)
    requires nodes[root].a == mid - 1 && nodes[root].b == root - 1 && nodes[root].c == -1
    ensures Uses(nodes, base, root + 1, i) == Unit(base <= i < root)
  {
    UsesSplit(nodes, base, mid, root, i);
  }

  lemma ThreeRanges(nodes: seq<Node>, base: nat, mid: nat, mid2: nat, root: nat, i: nat)
    requires base < mid < mid2 < root < |nodes|
    requires Uses(nodes, base, mid, i) == Unit(base <= i < mid - 1)
    requires Uses(nodes, mid, mid2, i) == Unit(mid <= i < mid2 - 1)
    requires Uses(nodes, mid2, root, i) == Unit(mid2 <= i < root - 1)
    requires nodes[root].a == mid - 1 && nodes[root].b == mid2 - 1 && nodes[root].c == root - 1
    ensures Uses(nodes, base, root + 1, i) == Unit(base <= i < root)
  {
    UsesSplit(nodes, base, mid, mid2, i);
    UsesSplit(nodes, base, mid2, root, i);
    var total := Uses(nodes, base, root, i);
    assert Uses(nodes, base, root + 1, i) == total + Mentions(nodes[root], i);
    hide Uses;
  }

  /** In the layout of a tree every node but the root is used exactly once, and nothing outside it is used. */
  lemma {:induction false} HeldIsUsedOnce(nodes: seq<Node>, e: Expr, base: nat, i: nat)
    requires HoldsTree(nodes, e, base)
    ensures Uses(nodes, base, base + Size(e), i) == Unit(base <= i < base + Size(e) - 1)
  {
    HeldByParts(nodes, e, base);
    hide HoldsTree;
    var root := base + Size(e) - 1;
    match e {
      case Atom(_) =>
      case One(_, a) =>
        assert HoldsTree(nodes, a, base) && root == base + Size(a) && nodes[root] == RootNode(e, base);
        hide Uses, Size, PartsHeld;
        HeldIsUsedOnce(nodes, a, base, i);
        OneRange(nodes, base, root, i);
      case Two(_, a, b) =>
        var mid := base + Size(a);
        assert HoldsTree(nodes, a, base) && HoldsTree(nodes, b, mid) && root == mid + Size(b);
        assert nodes[root] == RootNode(e, base);
        hide Uses, Size, PartsHeld;
        HeldIsUsedOnce(nodes, a, base, i);
        HeldIsUsedOnce(nodes, b, mid, i);
        TwoRanges(nodes, base, mid, root, i);
      case Three(_, a, b, c) =>
        var mid := base + Size(a);
        var mid2 := mid + Size(b);
        assert HoldsTree(nodes, a, base) && HoldsTree(nodes, b, mid) && HoldsTree(nodes, c, mid2);
        assert root == mid2 + Size(c) && nodes[root] == RootNode(e, base);
        hide Uses, Size, PartsHeld;
        HeldIsUsedOnce(nodes, a, base, i);
        HeldIsUsedOnce(nodes, b, mid, i);
        HeldIsUsedOnce(nodes, c, mid2, i);
        ThreeRanges(nodes, base, mid, mid2, root, i);
    }
  }

  lemma {:induction false} HeldIsShaped(nodes: seq<Node>, e: Expr, base: nat, k: nat)
    requires HoldsTree(nodes, e, base) && base <= k < base + Size(e)
    ensures NodeShaped(nodes[k], k)
  {
    if k < base + Size(e) - 1 {
      if k < base + Size(e.a) {
        HeldIsShaped(nodes, e.a, base, k);
      } else if k < base + Size(e.a) + Size(e.b) {
        HeldIsShaped(nodes, e.b, base + Size(e.a), k);
      } else {
        HeldIsShaped(nodes, e.c, base + Size(e.a) + Size(e.b), k);
      }
    }
  }

  lemma FlatIsShaped(e: Expr)
    ensures WellShaped(Flat(e, 0)) && HoldsTree(Flat(e, 0), e, 0)
  {
    FlatIsHeld([], e, []);
    assert [] + Flat(e, 0) + [] == Flat(e, 0);
    forall k | 0 <= k < Size(e) ensures NodeShaped(Flat(e, 0)[k], k) { HeldIsShaped(Flat(e, 0), e, 0, k); }
  }

  lemma DenoteRoot(nodes: seq<Node>, e: Expr, base: nat)
    requires WellShaped(nodes) && base + Size(e) <= |nodes| && nodes[base + Size(e) - 1] == RootNode(e, base)
    requires !e.Atom? ==> Denote(nodes, base + Size(e.a) - 1) == e.a
    requires e.Two? || e.Three? ==> Denote(nodes, base + Size(e.a) + Size(e.b) - 1) == e.b
    requires e.Three? ==> Denote(nodes, base + Size(e.a) + Size(e.b) + Size(e.c) - 1) == e.c
    ensures Denote(nodes, base + Size(e) - 1) == e
  {
    assert NodeShaped(nodes[base + Size(e) - 1], base + Size(e) - 1);
    hide WellShaped;
  }

  /** The layout determines the tree: reading it back from its root gives the tree that was laid out. */
  lemma {:induction false} DenoteOfFlat(nodes: seq<Node>, e: Expr, base: nat)
    requires WellShaped(nodes) && HoldsTree(nodes, e, base)
    ensures Denote(nodes, base + Size(e) - 1) == e
  {
    hide HoldsTree, WellShaped, Denote, RootNode;
    HeldByParts(nodes, e, base);
    if !e.Atom? { DenoteOfFlat(nodes, e.a, base); }
    if e.Two? || e.Three? { DenoteOfFlat(nodes, e.b, base + Size(e.a)); }
    if e.Three? { DenoteOfFlat(nodes, e.c, base + Size(e.a) + Size(e.b)); }
    DenoteRoot(nodes, e, base);
  }

  /** Depth as the compiler measures it, over indices. */
  function TreeDepth(nodes: seq<Node>, i: int): nat
    requires WellShaped(nodes) && i < |nodes|
    decreases if i < 0 then 0 else i + 1
  {
    if i < 0 then 0
    else
      var n := nodes[i];
      assert NodeShaped(n, i);
      Larger(Larger(TreeDepth(nodes, n.a), TreeDepth(nodes, n.b)), TreeDepth(nodes, n.c)) + 1
  }

  lemma {:induction false} TreeDepthIsDepth(nodes: seq<Node>, i: nat)
    requires WellShaped(nodes) && i < |nodes|
    ensures TreeDepth(nodes, i) == Depth(Denote(nodes, i))
    decreases i
  {
    var n := nodes[i];
    assert NodeShaped(n, i);
    if n.a >= 0 { TreeDepthIsDepth(nodes, n.a); }
    if n.b >= 0 { TreeDepthIsDepth(nodes, n.b); }
    if n.c >= 0 { TreeDepthIsDepth(nodes, n.c); }
  }

  // -------------------------------------------------------------- evaluation

  /** What the numbers mean at one sample. */
  datatype Semantics<!V> = Semantics(
    atom: Leaf -> V, unary: (UnaryOp, V) -> V, binary: (BinaryOp, V, V) -> V, truthy: V -> bool,
    call1: (Function1, V) -> V, call2: (Function2, V, V) -> V, call3: (Function3, V, V, V) -> V)

  /** The value of a tree, with short-circuit logic and a conditional that evaluates one branch. */
  function Value<V>(e: Expr, s: Semantics<V>): V {
    match e
    case Atom(leaf) => s.atom(leaf)
    case One(Prefix(op), a) => s.unary(op, Value(a, s))
    case One(Call1(f), a) => s.call1(f, Value(a, s))
    case Two(Infix(op), a, b) =>
      var x := Value(a, s);
      if (op == LogicalAnd && !s.truthy(x)) || (op == LogicalOr && s.truthy(x)) then x
      else if op == LogicalAnd || op == LogicalOr then Value(b, s)
      else s.binary(op, x, Value(b, s))
    case Two(Call2(f), a, b) => s.call2(f, Value(a, s), Value(b, s))
    case Three(Conditional, a, b, c) => if s.truthy(Value(a, s)) then Value(b, s) else Value(c, s)
    case Three(Call3(f), a, b, c) => s.call3(f, Value(a, s), Value(b, s), Value(c, s))
  }

  /** What is not evaluated does not matter: the right operand of a logical operator that the left one decides, and the
      branch of a conditional that is not taken. */
  lemma UnusedOperandsDoNotMatter<V>(a: Expr, b: Expr, b': Expr, c: Expr, s: Semantics<V>)
    ensures var and, or := Infix(LogicalAnd), Infix(LogicalOr);
            var truth := s.truthy(Value(a, s));
            && (!truth ==> Value(Two(and, a, b), s) == Value(Two(and, a, b'), s) == Value(a, s))
            && (truth ==> Value(Two(or, a, b), s) == Value(Two(or, a, b'), s) == Value(a, s))
            && (truth ==> Value(Two(and, a, b), s) == Value(Three(Conditional, a, b, c), s) == Value(b, s))
            && (!truth ==> Value(Two(or, a, c), s) == Value(Three(Conditional, a, b, c), s) == Value(c, s))
  {
  }

  /** One evaluation: its value, the calls it made, and how deeply they were nested. */
  datatype Evaluation<V> = Evaluation(value: V, calls: nat, nesting: nat)

  /** The recursive evaluator over node indices, also counting its calls and how deep they go. */
  function EvalNode<V>(nodes: seq<Node>, i: nat, s: Semantics<V>): (r: Evaluation<V>)
    requires WellShaped(nodes) && i < |nodes|
    decreases i
  {
    var n := nodes[i];
    assert NodeShaped(n, i);
    match n.kind
    case KAtom(leaf) => Evaluation(s.atom(leaf), 1, 1)
    case K1(op) =>
      var a := EvalNode(nodes, n.a, s);
      var v := match op case Prefix(u) => s.unary(u, a.value) case Call1(f) => s.call1(f, a.value);
      Evaluation(v, a.calls + 1, a.nesting + 1)
    case K2(op) =>
      var a := EvalNode(nodes, n.a, s);
      if (op == Infix(LogicalAnd) && !s.truthy(a.value)) || (op == Infix(LogicalOr) && s.truthy(a.value)) then
        Evaluation(a.value, a.calls + 1, a.nesting + 1)
      else
        var b := EvalNode(nodes, n.b, s);
        var v := match op
                 case Infix(binary) =>
                   if binary == LogicalAnd || binary == LogicalOr then b.value else s.binary(binary, a.value, b.value)
                 case Call2(f) => s.call2(f, a.value, b.value);
        Evaluation(v, a.calls + b.calls + 1, Larger(a.nesting, b.nesting) + 1)
    case K3(op) =>
      var a := EvalNode(nodes, n.a, s);
      match op
      case Conditional =>
        var b := EvalNode(nodes, if s.truthy(a.value) then n.b else n.c, s);
        Evaluation(b.value, a.calls + b.calls + 1, Larger(a.nesting, b.nesting) + 1)
      case Call3(f) =>
        var b, c := EvalNode(nodes, n.b, s), EvalNode(nodes, n.c, s);
        Evaluation(s.call3(f, a.value, b.value, c.value), a.calls + b.calls + c.calls + 1,
                   Larger(Larger(a.nesting, b.nesting), c.nesting) + 1)
  }

  /** Evaluating the nodes is evaluating the tree they denote. */
  lemma {:induction false} EvalNodeIsValue<V>(nodes: seq<Node>, i: nat, s: Semantics<V>)
    requires WellShaped(nodes) && i < |nodes|
    ensures EvalNode(nodes, i, s).value == Value(Denote(nodes, i), s)
    decreases i
  {
    var n := nodes[i];
    assert NodeShaped(n, i);
    if n.a >= 0 { EvalNodeIsValue(nodes, n.a, s); }
    if n.b >= 0 { EvalNodeIsValue(nodes, n.b, s); }
    if n.c >= 0 { EvalNodeIsValue(nodes, n.c, s); }
  }

  /** Calls and nesting of an evaluation, from those of the children it may evaluate. */
  lemma EvalNodeStep<V>(nodes: seq<Node>, i: nat, s: Semantics<V>)
    requires WellShaped(nodes) && i < |nodes|
    ensures NodeShaped(nodes[i], i)
    ensures var n, r := nodes[i], EvalNode(nodes, i, s);
            && (n.kind.KAtom? ==> r.calls == 1 && r.nesting == 1)
            && (n.kind.K1? ==> var a := EvalNode(nodes, n.a, s); r.calls == a.calls + 1 && r.nesting == a.nesting + 1)
            && (n.kind.K2? ==>
                  var a, b := EvalNode(nodes, n.a, s), EvalNode(nodes, n.b, s);
                  r.calls <= a.calls + b.calls + 1 && r.nesting <= Larger(a.nesting, b.nesting) + 1)
            && (n.kind.K3? ==>
                  var a, b, c := EvalNode(nodes, n.a, s), EvalNode(nodes, n.b, s), EvalNode(nodes, n.c, s);
                  && r.calls <= a.calls + b.calls + c.calls + 1
                  && r.nesting <= Larger(Larger(a.nesting, b.nesting), c.nesting) + 1)
  {
    assert NodeShaped(nodes[i], i);
    hide WellShaped;
  }

  lemma DenoteStep(nodes: seq<Node>, i: nat)
    requires WellShaped(nodes) && i < |nodes|
    ensures NodeShaped(nodes[i], i)
    ensures var n, e := nodes[i], Denote(nodes, i);
            && (n.kind.KAtom? ==> e.Atom?)
            && (n.kind.K1? ==> e.One? && e.a == Denote(nodes, n.a))
            && (n.kind.K2? ==> e.Two? && e.a == Denote(nodes, n.a) && e.b == Denote(nodes, n.b))
            && (n.kind.K3? ==>
                  e.Three? && e.a == Denote(nodes, n.a) && e.b == Denote(nodes, n.b) && e.c == Denote(nodes, n.c))
  {
    assert NodeShaped(nodes[i], i);
    hide WellShaped;
  }

  /** It takes at most one call per node of the tree, nested at most as deeply as the tree. */
  lemma {:induction false} EvalNodeIsBounded<V>(nodes: seq<Node>, i: nat, s: Semantics<V>)
    requires WellShaped(nodes) && i < |nodes|
    ensures var e, r := Denote(nodes, i), EvalNode(nodes, i, s);
            r.calls <= Size(e) && r.nesting <= Depth(e)
    decreases i
  {
    EvalNodeStep(nodes, i, s);
    DenoteStep(nodes, i);
    hide WellShaped, EvalNode, Denote;
    var n := nodes[i];
    if n.a >= 0 { EvalNodeIsBounded(nodes, n.a, s); }
    if n.b >= 0 { EvalNodeIsBounded(nodes, n.b, s); }
    if n.c >= 0 { EvalNodeIsBounded(nodes, n.c, s); }
  }

  // ------------------------------------------------------------------ programs

  datatype Program = Program(nodes: seq<Node>, root: int, maxDepth: nat)

  /** The nodes are the post-order layout of exactly one tree, and the limits hold. */
  ghost predicate OneTree(p: Program) {
    && p.maxDepth <= MAX_DEPTH && |p.nodes| <= MAX_NODES
    && exists e :: p.nodes == Flat(e, 0) && p.root == |p.nodes| - 1 && p.maxDepth == Depth(e)
  }

  /** What being one tree amounts to, index by index. */
  lemma OneTreeIsUsedOnce(p: Program)
    requires OneTree(p)
    ensures WellShaped(p.nodes) && 0 <= p.root == |p.nodes| - 1
    ensures forall i: nat :: i < |p.nodes| ==> Uses(p.nodes, 0, |p.nodes|, i) == if i == p.root then 0 else 1
    ensures Size(Denote(p.nodes, p.root)) == |p.nodes| && p.maxDepth == TreeDepth(p.nodes, p.root)
  {
    hide Flat, HoldsTree, WellShaped, Size, Depth, Denote, TreeDepth, Uses;
    var e :| p.nodes == Flat(e, 0) && p.root == |p.nodes| - 1 && p.maxDepth == Depth(e);
    FlatIsShaped(e);
    forall i: nat | i < |p.nodes| ensures Uses(p.nodes, 0, |p.nodes|, i) == if i == p.root then 0 else 1 {
      HeldIsUsedOnce(p.nodes, e, 0, i);
    }
    DenoteOfFlat(p.nodes, e, 0);
    TreeDepthIsDepth(p.nodes, p.root);
  }

  /** What a render asks for. */
  datatype RenderOptions = RenderOptions(sampleRate: nat, sampleCount: nat, fadeSamples: nat, gain: real)

  predicate ValidRender(p: Program, o: RenderOptions) {
    && 0 <= p.root < |p.nodes|
    && 4000 <= o.sampleRate <= 48000
    && 0 < o.sampleCount <= MAX_SAMPLES
    && o.fadeSamples <= o.sampleCount / 2
    && 0.0 <= o.gain <= 4.0
    && |p.nodes| * o.sampleCount <= MAX_RENDER_OPERATIONS
  }

  // ------------------------------------------------------------------- samples

  type i16 = x: int | -0x8000 <= x <= 0x7FFF

  /** How a value is read as a sample: as a number, 0.0 standing for values that are none, or by its low eight bits. */
  datatype Mode<!V> = FloatMode(number: V -> real) | ByteMode(low: V -> byte)

  function Clamped(x: real, low: real, high: real): real {
    if x < low then low else if x > high then high else x
  }

  function RawSample<V>(mode: Mode<V>, v: V): real {
    match mode
    case FloatMode(number) => Clamped(number(v), -1.0, 1.0) * 32767.0
    case ByteMode(low) => (low(v) - 128) as real * 256.0
  }

  /** The fade in and the fade out, as they are computed. */
  function Envelope(o: RenderOptions, i: nat): real
    requires i < o.sampleCount
  {
    if o.fadeSamples == 0 then 1.0
    else
      var head := if i < o.fadeSamples then i as real / o.fadeSamples as real else 1.0;
      var left := o.sampleCount - 1 - i;
      if left < o.fadeSamples && left as real / o.fadeSamples as real < head
      then left as real / o.fadeSamples as real
      else head
  }

  /** To the nearest whole number, halves away from zero. */
  function Rounded(x: real): int {
    if x < 0.0 then -((0.5 - x).Floor) else (x + 0.5).Floor
  }

  function Loudness<V>(o: RenderOptions, mode: Mode<V>, v: V, i: nat): real
    requires i < o.sampleCount
  {
    RawSample(mode, v) * (o.gain * Envelope(o, i))
  }

  function Pcm<V>(o: RenderOptions, mode: Mode<V>, v: V, i: nat): (sample: i16)
    requires i < o.sampleCount
    ensures var x := Loudness(o, mode, v, i);
            && (-32768.0 <= x <= 32767.0 ==> -0.5 <= sample as real - x <= 0.5)
            && (x < -32768.0 ==> sample == -0x8000) && (x > 32767.0 ==> sample == 0x7FFF)
  {
    Rounded(Clamped(Loudness(o, mode, v, i), -32768.0, 32767.0))
  }

  /** Full scale: the number 1 is the loudest sample, -1 its opposite, and numbers beyond count as these; the middle byte
      is silence and each step of a byte is 256. */
  lemma RawSampleScale<V>(mode: Mode<V>, v: V)
    ensures mode.FloatMode? ==>
      var x := mode.number(v);
      && (x >= 1.0 ==> RawSample(mode, v) == 32767.0) && (x <= -1.0 ==> RawSample(mode, v) == -32767.0)
      && (-1.0 <= x <= 1.0 ==> RawSample(mode, v) == 32767.0 * x)
    ensures mode.ByteMode? ==>
      && (mode.low(v) == 128 ==> RawSample(mode, v) == 0.0)
      && RawSample(mode, v) == -32768.0 + 256.0 * mode.low(v) as real
  {
  }

  /** The fade factor of a sample is that of its distance to the nearer end, so the fade out is the fade in reversed,
      both ends are silent, and only the fades are attenuated. */
  lemma FadesMirrorEachOther(o: RenderOptions, i: nat)
    requires i < o.sampleCount
    ensures Envelope(o, i) == Envelope(o, o.sampleCount - 1 - i)
    ensures 0.0 <= Envelope(o, i) <= 1.0
    ensures Envelope(o, i) == 1.0 <==> o.fadeSamples == 0 || o.fadeSamples <= i < o.sampleCount - o.fadeSamples
    ensures Envelope(o, i) == 0.0 <==> o.fadeSamples > 0 && (i == 0 || i == o.sampleCount - 1)
  {
    if o.fadeSamples > 0 {
      RatioInOrder(i, o.sampleCount - 1 - i, o.fadeSamples);
      RatioInOrder(o.sampleCount - 1 - i, i, o.fadeSamples);
    }
  }

  lemma RatioInOrder(a: nat, b: nat, d: nat)
    requires d > 0
    ensures a as real / d as real < b as real / d as real <==> a < b
    ensures a as real / d as real < 1.0 <==> a < d
    ensures 0.0 <= a as real / d as real
    ensures a as real / d as real == 0.0 <==> a == 0
  {
    var (x, y) := (a as real / d as real, b as real / d as real);
    assert x * d as real == a as real && y * d as real == b as real;
  }

  predicate Runnable(p: Program) {
    WellShaped(p.nodes) && 0 <= p.root < |p.nodes|
  }

  /** What rendering n samples takes: evaluator calls in all, and the deepest nesting among them. */
  datatype Work = Work(calls: nat, deepest: nat)

  function WorkOf<V>(p: Program, meaning: nat -> Semantics<V>, n: nat): Work
    requires Runnable(p)
  {
    if n == 0 then Work(0, 0)
    else
      var before, r := WorkOf(p, meaning, n - 1), EvalNode(p.nodes, p.root, meaning(n - 1));
      Work(before.calls + r.calls, Larger(before.deepest, r.nesting))
  }

  /** A render makes at most one call per node and sample, never nested deeper than the compiler recorded. */
  lemma {:induction false} RenderIsBounded<V>(p: Program, meaning: nat -> Semantics<V>, n: nat)
    requires OneTree(p)
    ensures Runnable(p)
    ensures var work := WorkOf(p, meaning, n); work.calls <= |p.nodes| * n && work.deepest <= p.maxDepth <= MAX_DEPTH
  {
    assert p.maxDepth <= MAX_DEPTH;
    hide OneTree, WellShaped, EvalNode, Denote, Size, Depth, TreeDepth;
    OneTreeIsUsedOnce(p);
    TreeDepthIsDepth(p.nodes, p.root);
    if n > 0 {
      RenderIsBounded(p, meaning, n - 1);
      EvalNodeIsBounded(p.nodes, p.root, meaning(n - 1));
      assert |p.nodes| * n == |p.nodes| * (n - 1) + |p.nodes|;
    }
  }

  lemma RenderFitsBudget<V>(p: Program, o: RenderOptions, meaning: nat -> Semantics<V>)
    requires OneTree(p) && ValidRender(p, o)
    ensures Runnable(p) && WorkOf(p, meaning, o.sampleCount).calls <= MAX_RENDER_OPERATIONS
  {
    hide Runnable, OneTree;
    RenderIsBounded(p, meaning, o.sampleCount);
  }

  /** The samples are those of the program's tree, in order. */
  ghost predicate Rendered<V>(p: Program, o: RenderOptions, mode: Mode<V>, meaning: nat -> Semantics<V>, out: seq<i16>)
    requires Runnable(p)
  {
    && |out| <= o.sampleCount
    && forall i :: 0 <= i < |out| ==> out[i] == Pcm(o, mode, Value(Denote(p.nodes, p.root), meaning(i)), i)
  }

  /** One evaluation of a compiled program: the value of its tree, with recursion no deeper than recorded. */
  method Evaluate<V>(p: Program, s: Semantics<V>) returns (r: Evaluation<V>)
    requires OneTree(p)
    ensures Runnable(p)
    ensures r == EvalNode(p.nodes, p.root, s) && r.value == Value(Denote(p.nodes, p.root), s)
    ensures r.calls <= |p.nodes| && r.nesting <= p.maxDepth <= MAX_DEPTH
  {
    assert p.maxDepth <= MAX_DEPTH;
    hide OneTree, WellShaped, EvalNode, Denote, Size, Depth, Value, TreeDepth;
    OneTreeIsUsedOnce(p);
    TreeDepthIsDepth(p.nodes, p.root);
    EvalNodeIsValue(p.nodes, p.root, s);
    EvalNodeIsBounded(p.nodes, p.root, s);
    r := EvalNode(p.nodes, p.root, s);
  }

  lemma RenderedOneMore<V>(p: Program, o: RenderOptions, mode: Mode<V>, meaning: nat -> Semantics<V>, out: seq<i16>, v: V)
    requires Runnable(p) && Rendered(p, o, mode, meaning, out) && |out| < o.sampleCount
    requires v == Value(Denote(p.nodes, p.root), meaning(|out|))
    ensures Rendered(p, o, mode, meaning, out + [Pcm(o, mode, v, |out|)])
  {
    hide Runnable, Denote, Value, Pcm;
  }

  lemma NothingRendered<V>(p: Program, o: RenderOptions, mode: Mode<V>, meaning: nat -> Semantics<V>)
    requires Runnable(p)
    ensures Rendered(p, o, mode, meaning, [])
  {
  }

  /** Writes every sample; `work` counts what it took. */
  method RenderSamples<V>(p: Program, o: RenderOptions, mode: Mode<V>, out: array<i16>, meaning: nat -> Semantics<V>)
    returns (work: Work)
    requires OneTree(p) && o.sampleCount <= out.Length
    modifies out
    ensures Runnable(p) && Rendered(p, o, mode, meaning, out[..o.sampleCount])
    ensures forall i :: o.sampleCount <= i < out.Length ==> out[i] == old(out[i])
    ensures work == WorkOf(p, meaning, o.sampleCount)
  {
    RenderIsBounded(p, meaning, 0);
    NothingRendered(p, o, mode, meaning);
    hide Runnable, OneTree, EvalNode, Denote, Value, Pcm, Rendered;
    work := Work(0, 0);
    assert out[..0] == [];
    for i := 0 to o.sampleCount
      invariant Rendered(p, o, mode, meaning, out[..i])
      invariant forall k :: i <= k < out.Length ==> out[k] == old(out[k])
      invariant work == WorkOf(p, meaning, i)
    {
      var r := Evaluate(p, meaning(i));
      work := Work(work.calls + r.calls, Larger(work.deepest, r.nesting));
      RenderedOneMore(p, o, mode, meaning, out[..i], r.value);
      out[i] := Pcm(o, mode, r.value, i);
      assert out[..i + 1] == out[..i] + [out[i]];
    }
  }

  /** Renders a program into `out`, or refuses and leaves it alone. `meaning(i)` is the semantics at sample i. */
  method Render<V>(p: Program, o: RenderOptions, mode: Mode<V>, out: array<i16>, meaning: nat -> Semantics<V>)
    returns (ok: bool, work: Work)
    requires OneTree(p)
    modifies out
    ensures Runnable(p)
    ensures ok <==> ValidRender(p, o) && o.sampleCount <= out.Length
    ensures ok ==> Rendered(p, o, mode, meaning, out[..o.sampleCount])
    ensures forall i :: (if ok then o.sampleCount else 0) <= i < out.Length ==> out[i] == old(out[i])
    ensures work == WorkOf(p, meaning, if ok then o.sampleCount else 0)
    ensures work.calls <= MAX_RENDER_OPERATIONS && work.deepest <= p.maxDepth <= MAX_DEPTH
  {
    RenderIsBounded(p, meaning, 0);
    RenderIsBounded(p, meaning, o.sampleCount);
    hide Runnable, OneTree, EvalNode, Denote, Value, Pcm, ValidRender, Rendered;
    ok, work := ValidRender(p, o) && o.sampleCount <= out.Length, Work(0, 0);
    if !ok { return; }
    RenderFitsBudget(p, o, meaning);
    work := RenderSamples(p, o, mode, out, meaning);
  }
}
