/**
 Laws over whole runs of the entity world: handles are never reissued or revived,
 enumeration is exact, updates are transactional, and stepping is free of drift.
 */
module EntityLaws {
  import opened Common
  import opened EntityModel

  // ------------------------------------------------------------ enumeration

  lemma {:induction false} LiveUpToExact(slots: seq<Slot>, n: nat, h: Handle)
    requires n <= |slots| <= WORLD_LIMIT
    ensures h in LiveUpTo(slots, n) <==> 0 <= SlotOf(slots, h) < n
  {
    if n > 0 {
      LiveUpToExact(slots, n - 1, h);
      if slots[n - 1].active {
        var last := MakeHandle(n - 1, slots[n - 1].generation);
        assert LiveUpTo(slots, n) == LiveUpTo(slots, n - 1) + [last];
        assert SlotOf(slots, last) == n - 1;
      }
    }
  }

  function Index(h: Handle): int { h % TWO32 }

  /** Slot indices rise strictly along a sequence of handles. */
  predicate InSlotOrder(hs: seq<Handle>) {
    forall i, j :: 0 <= i < j < |hs| ==> Index(hs[i]) < Index(hs[j])
  }

  lemma {:induction false} LiveUpToOrdered(slots: seq<Slot>, n: nat)
    requires n <= |slots| <= WORLD_LIMIT
    ensures InSlotOrder(LiveUpTo(slots, n))
    ensures forall h :: h in LiveUpTo(slots, n) ==> Index(h) <= n
  {
    if n > 0 {
      LiveUpToOrdered(slots, n - 1);
      var before := LiveUpTo(slots, n - 1);
      forall i | 0 <= i < |before| ensures Index(before[i]) <= n - 1 { assert before[i] in before; }
    }
  }

  /** Enumeration yields exactly the resolvable handles, once each, in slot order, and `count` is their number. */
  lemma EnumerationIsExact(w: World)
    requires WellFormed(w)
    ensures forall h: Handle :: h in Live(w) <==> Resolves(w, h)
    ensures InSlotOrder(Live(w))
    ensures w.count == |Live(w)|
  {
    forall h: Handle ensures h in Live(w) <==> Resolves(w, h) { LiveUpToExact(w.slots, |w.slots|, h); }
    LiveUpToOrdered(w.slots, |w.slots|);
  }

  // ---------------------------------------------------------- handle safety

  /** The handle names a generation its slot has reached: some spawn returned it. */
  predicate Issued(w: World, h: Handle) {
    var index := h % TWO32;
    1 <= index <= |w.slots| && 1 <= h / TWO32 <= w.slots[index - 1].generation
  }

  /** Generations only grow, and within one generation a slot only goes from active to free. */
  predicate Later(w: World, w': World) {
    && |w'.slots| == |w.slots|
    && forall i :: 0 <= i < |w.slots| ==>
         && w.slots[i].generation <= w'.slots[i].generation
         && (w.slots[i].generation == w'.slots[i].generation && w'.slots[i].active ==> w.slots[i].active)
  }

  predicate NoRepeats(log: seq<Handle>) {
    forall i, j :: 0 <= i < j < |log| ==> log[i] != log[j]
  }

  /** `w'` follows `w`, and `log` lists without repetition exactly the handles issued in between. */
  ghost predicate Extends(w: World, w': World, log: seq<Handle>) {
    && Later(w, w')
    && NoRepeats(log)
    && (forall h :: h in log ==> !Issued(w, h))
    && (forall h :: Issued(w', h) <==> Issued(w, h) || h in log)
  }

  lemma ExtendsTransitive(a: World, b: World, c: World, log1: seq<Handle>, log2: seq<Handle>)
    requires Extends(a, b, log1) && Extends(b, c, log2)
    ensures Extends(a, c, log1 + log2)
  {
    var log := log1 + log2;
    forall i, j | 0 <= i < j < |log| ensures log[i] != log[j] {
      if i < |log1| <= j {
        assert log[i] in log1 && log[j] in log2;
        assert Issued(b, log[i]) && !Issued(b, log[j]);
      }
    }
    forall h | h in log ensures !Issued(a, h) {
      if h in log2 { assert !Issued(b, h); }
    }
  }

  lemma SpawnExtends(w: World, v: EntityValue)
    requires WellFormed(w)
    ensures var (w', h) := Spawn(w, v);
            && Extends(w, w', if h == 0 then [] else [h])
            && (h != 0 ==> Resolves(w', h) && !Issued(w, h))
  {
  }

  lemma RemoveExtends(w: World, h: Handle)
    requires WellFormed(w)
    ensures w.count > 0 || !Resolves(w, h)
    ensures Extends(w, Remove(w, h).0, []) && !Resolves(Remove(w, h).0, h)
  {
    RemoveWellFormed(w, h);
  }

  lemma WriteExtends(w: World, h: Handle, v: EntityValue)
    requires WellFormed(w)
    ensures Extends(w, Write(w, h, v).0, [])
  {
  }

  lemma StepExtends(w: World)
    requires WellFormed(w)
    ensures Extends(w, Step(w).0, [])
  {
  }

  lemma PerformExtends(w: World, p: Progress, c: Command)
    requires WellFormed(p.world) && Extends(w, p.world, p.issued)
    ensures Extends(w, Perform(p, c).world, Perform(p, c).issued)
  {
    match c {
      case DoSpawn(v) =>
        SpawnExtends(p.world, v);
        var (w', h) := Spawn(p.world, v);
        ExtendsTransitive(w, p.world, w', p.issued, if h == 0 then [] else [h]);
        assert p.issued + [] == p.issued;
      case DoRemove(h) =>
        RemoveExtends(p.world, h);
        ExtendsTransitive(w, p.world, Remove(p.world, h).0, p.issued, []);
        assert p.issued + [] == p.issued;
      case DoWrite(h, v) =>
        WriteExtends(p.world, h, v);
        ExtendsTransitive(w, p.world, Write(p.world, h, v).0, p.issued, []);
        assert p.issued + [] == p.issued;
      case _ =>
    }
  }

  lemma {:induction false} PerformAllExtends(w: World, p: Progress, cs: seq<Command>)
    requires WellFormed(p.world) && Extends(w, p.world, p.issued)
    ensures Extends(w, PerformAll(p, cs).world, PerformAll(p, cs).issued)
    decreases |cs|
  {
    if cs != [] {
      PerformExtends(w, p, cs[0]);
      PerformAllExtends(w, Perform(p, cs[0]), cs[1..]);
    }
  }

  lemma {:induction false} VisitExtends(w0: World, w: World, handles: seq<Handle>, plan: nat -> Turn,
                                        visited: seq<Handle>, issued: seq<Handle>)
    requires WellFormed(w) && Extends(w0, w, issued)
    ensures var t := Visit(w, handles, plan, visited, issued); Extends(w0, t.world, t.issued)
    decreases |handles|
  {
    if handles != [] {
      if !Resolves(w, handles[0]) {
        VisitExtends(w0, w, handles[1..], plan, visited, issued);
      } else {
        var turn := plan(|visited|);
        var p := PerformAll(Progress(w, false, issued), turn.commands);
        PerformAllExtends(w0, Progress(w, false, issued), turn.commands);
        if turn.ok && !p.failed {
          VisitExtends(w0, p.world, handles[1..], plan, visited + [handles[0]], p.issued);
        }
      }
    }
  }

  lemma PerformAllLater(p: Progress, cs: seq<Command>)
    requires WellFormed(p.world)
    ensures Later(p.world, PerformAll(p, cs).world)
  {
    LogIsPassive(p.world, p.failed, p.issued, [], cs);
    PerformAllExtends(p.world, p.(issued := []), cs);
  }

  /** One public operation on a world whose handles are in use. */
  datatype Operation =
    | OpSpawn(value: EntityValue)
    | OpRemove(handle: Handle)
    | OpWrite(handle: Handle, value: EntityValue)
    | OpStep
    | OpUpdate(plan: nat -> Turn)

  /** The next world, and the handles that were handed out and not rolled back. */
  function Apply(w: World, op: Operation): (r: (World, seq<Handle>))
    requires WellFormed(w)
    ensures WellFormed(r.0)
  {
    match op
    case OpSpawn(v) =>
      SpawnWellFormed(w, v);
      var (w', h) := Spawn(w, v);
      (w', if h == 0 then [] else [h])
    case OpRemove(h) => RemoveWellFormed(w, h); (Remove(w, h).0, [])
    case OpWrite(h, v) => WriteWellFormed(w, h, v); (Write(w, h, v).0, [])
    case OpStep => StepWellFormed(w); (Step(w).0, [])
    case OpUpdate(plan) =>
      UpdateWellFormed(w, plan);
      var t := Update(w, plan);
      (t.world, if t.ok then t.issued else [])
  }

  lemma UpdateWellFormed(w: World, plan: nat -> Turn)
    requires WellFormed(w)
    ensures WellFormed(Update(w, plan).world)
  {
    StepWellFormed(Visit(w, Live(w), plan, [], []).world);
  }

  function Run(w: World, ops: seq<Operation>): (r: (World, seq<Handle>))
    requires WellFormed(w)
    ensures WellFormed(r.0)
    decreases |ops|
  {
    if ops == [] then (w, [])
    else
      var (w1, log1) := Apply(w, ops[0]);
      var (w2, log2) := Run(w1, ops[1..]);
      (w2, log1 + log2)
  }

  lemma ApplyExtends(w: World, op: Operation)
    requires WellFormed(w)
    ensures Extends(w, Apply(w, op).0, Apply(w, op).1)
  {
    match op {
      case OpSpawn(v) => SpawnExtends(w, v);
      case OpRemove(h) => RemoveExtends(w, h);
      case OpWrite(h, v) => WriteExtends(w, h, v);
      case OpStep => StepExtends(w);
      case OpUpdate(plan) =>
        var t := Visit(w, Live(w), plan, [], []);
        VisitExtends(w, w, Live(w), plan, [], []);
        if Update(w, plan).ok {
          StepExtends(t.world);
          ExtendsTransitive(w, t.world, Step(t.world).0, t.issued, []);
          assert t.issued + [] == t.issued;
        }
    }
  }

  lemma {:induction false} RunExtends(w: World, ops: seq<Operation>)
    requires WellFormed(w)
    ensures Extends(w, Run(w, ops).0, Run(w, ops).1)
    decreases |ops|
  {
    if ops != [] {
      var (w1, log1) := Apply(w, ops[0]);
      ApplyExtends(w, ops[0]);
      RunExtends(w1, ops[1..]);
      ExtendsTransitive(w, w1, Run(w1, ops[1..]).0, log1, Run(w1, ops[1..]).1);
    }
  }

  lemma DeadStaysDead(w: World, w': World, h: Handle)
    requires Later(w, w') && Issued(w, h) && !Resolves(w, h)
    ensures Issued(w', h) && !Resolves(w', h)
  {
  }

  /** Over any run (rolled-back updates included as no-ops): no handle is handed out twice, and once an
      issued handle stops resolving it never resolves again, whatever is done afterwards. */
  lemma HandleSafety(w: World, before: seq<Operation>, after: seq<Operation>)
    requires WellFormed(w)
    ensures var (mid, log1) := Run(w, before);
            var (end, log2) := Run(mid, after);
            && WellFormed(end)
            && NoRepeats(log1 + log2)
            && (forall h :: h in log1 + log2 ==> !Issued(w, h))
            && (forall h :: Resolves(end, h) ==> Resolves(w, h) || h in log1 + log2)
            && (forall h :: Issued(mid, h) && !Resolves(mid, h) ==> !Resolves(end, h))
  {
    var (mid, log1) := Run(w, before);
    var (end, log2) := Run(mid, after);
    RunExtends(w, before);
    RunExtends(mid, after);
    ExtendsTransitive(w, mid, end, log1, log2);
    forall h | Resolves(end, h) ensures Resolves(w, h) || h in log1 + log2 {
      assert Issued(end, h);
      if h !in log1 + log2 && !Resolves(w, h) { DeadStaysDead(w, end, h); }
    }
    forall h | Issued(mid, h) && !Resolves(mid, h) ensures !Resolves(end, h) { DeadStaysDead(mid, end, h); }
  }

  /** A slot freed at the last generation is retired: no later run makes it active again. */
  lemma ExhaustedSlotRetires(w: World, i: nat, ops: seq<Operation>)
    requires WellFormed(w) && i < |w.slots|
    requires w.slots[i].generation == U32_MAX && !w.slots[i].active
    ensures var w' := Run(w, ops).0; i < |w'.slots| && w'.slots[i].generation == U32_MAX && !w'.slots[i].active
  {
    RunExtends(w, ops);
  }

  // ------------------------------------------------------------ rolled back

  /** A callback's command as operations of its own; nested advancement and late type definitions change nothing. */
  function OperationsOf(c: Command): seq<Operation> {
    match c
    case DoSpawn(v) => [OpSpawn(v)]
    case DoRemove(h) => [OpRemove(h)]
    case DoWrite(h, v) => [OpWrite(h, v)]
    case _ => []
  }

  function AllOperations(cs: seq<Command>): seq<Operation> {
    if cs == [] then [] else OperationsOf(cs[0]) + AllOperations(cs[1..])
  }

  lemma RunFirst(w: World, ops: seq<Operation>)
    requires WellFormed(w) && ops != []
    ensures var (w1, log1) := Apply(w, ops[0]);
            var (w2, log2) := Run(w1, ops[1..]);
            Run(w, ops) == (w2, log1 + log2)
  {
    hide WellFormed, Apply;
  }

  lemma RunNothing(w: World)
    requires WellFormed(w)
    ensures Run(w, []) == (w, [])
  {
  }

  lemma {:induction false} RunConcat(w: World, a: seq<Operation>, b: seq<Operation>)
    requires WellFormed(w)
    ensures var (mid, log1) := Run(w, a);
            var (end, log2) := Run(mid, b);
            Run(w, a + b) == (end, log1 + log2)
    decreases |a|
  {
    hide WellFormed, Run, Apply;
    if a == [] {
      RunNothing(w);
      assert a + b == b;
      assert [] + Run(w, b).1 == Run(w, b).1;
    } else {
      var (w1, log) := Apply(w, a[0]);
      var (mid, log1) := Run(w1, a[1..]);
      assert (a + b)[0] == a[0] && (a + b)[1..] == a[1..] + b;
      RunFirst(w, a);
      RunFirst(w, a + b);
      RunConcat(w1, a[1..], b);
      assert log + (log1 + Run(mid, b).1) == (log + log1) + Run(mid, b).1;
    }
  }

  lemma PerformIsRun(p: Progress, c: Command)
    requires WellFormed(p.world)
    ensures var (w, log) := Run(p.world, OperationsOf(c));
            Perform(p, c).world == w && Perform(p, c).issued == p.issued + log
  {
    var ops := OperationsOf(c);
    if ops != [] {
      assert ops[1..] == [] && Run(Apply(p.world, ops[0]).0, []) == (Apply(p.world, ops[0]).0, []);
      assert Apply(p.world, ops[0]).1 + [] == Apply(p.world, ops[0]).1;
    }
    assert p.issued + [] == p.issued;
  }

  lemma {:induction false} PerformAllIsRun(p: Progress, cs: seq<Command>)
    requires WellFormed(p.world)
    ensures var (w, log) := Run(p.world, AllOperations(cs));
            PerformAll(p, cs).world == w && PerformAll(p, cs).issued == p.issued + log
    decreases |cs|
  {
    hide WellFormed, Perform, Run;
    if cs == [] {
      RunNothing(p.world);
      assert p.issued + [] == p.issued;
    } else {
      var first, rest := OperationsOf(cs[0]), AllOperations(cs[1..]);
      PerformIsRun(p, cs[0]);
      hide OperationsOf;
      var p1 := Perform(p, cs[0]);
      PerformAllIsRun(p1, cs[1..]);
      RunConcat(p.world, first, rest);
      assert p.issued + Run(p.world, first).1 + Run(p1.world, rest).1 == p.issued + Run(p.world, first + rest).1;
    }
  }

  /** What the callbacks of an update did to the world is also done by a run of operations. */
  lemma {:induction false} VisitIsRun(w: World, handles: seq<Handle>, plan: nat -> Turn, visited: seq<Handle>,
                                      issued: seq<Handle>) returns (ops: seq<Operation>)
    requires WellFormed(w)
    ensures var t := Visit(w, handles, plan, visited, issued);
            t.world == Run(w, ops).0 && t.issued == issued + Run(w, ops).1
    decreases |handles|
  {
    hide WellFormed, PerformAll, Resolves, Run;
    if handles == [] {
      ops := [];
      RunNothing(w);
      assert issued + [] == issued;
    } else if !Resolves(w, handles[0]) {
      ops := VisitIsRun(w, handles[1..], plan, visited, issued);
    } else {
      var turn := plan(|visited|);
      var p := PerformAll(Progress(w, false, issued), turn.commands);
      PerformAllIsRun(Progress(w, false, issued), turn.commands);
      ops := AllOperations(turn.commands);
      hide AllOperations;
      if turn.ok && !p.failed {
        var rest := VisitIsRun(p.world, handles[1..], plan, visited + [handles[0]], p.issued);
        RunConcat(w, ops, rest);
        ops := ops + rest;
      }
    }
  }

  /** The exact limit of handle safety. A handle an update handed to a callback can be handed out again afterwards,
      by some run, if and only if that update failed and was rolled back. */
  lemma IssuedAgainIffRolledBack(w: World, plan: nat -> Turn, h: Handle)
    requires WellFormed(w) && h in Update(w, plan).issued
    ensures WellFormed(Update(w, plan).world)
    ensures (exists ops :: h in Run(Update(w, plan).world, ops).1) <==> !Update(w, plan).ok
  {
    UpdateWellFormed(w, plan);
    var t := Update(w, plan);
    if t.ok {
      ApplyExtends(w, OpUpdate(plan));
      forall ops ensures h !in Run(t.world, ops).1 { RunExtends(t.world, ops); }
    } else {
      var ops := VisitIsRun(w, Live(w), plan, [], []);
      assert h in Run(w, ops).1;
    }
  }

  /** A shortest such run: what the refused callback of a failed update spawned, the next spawn gets again. */
  lemma RolledBackHandleIsReissued(w: World, v: EntityValue, plan: nat -> Turn)
    requires WellFormed(w) && w.count > 0 && Spawn(w, v).1 != 0
    requires plan(0) == Turn([DoSpawn(v)], false)
    ensures var t := Update(w, plan);
            t.issued == [Spawn(w, v).1] && t.world == w && Spawn(t.world, v).1 in t.issued
  {
    EnumerationIsExact(w);
    var hs := Live(w);
    assert hs[0] in hs && Resolves(w, hs[0]);
    var p := Progress(w, false, []);
    assert PerformAll(p, [DoSpawn(v)]) == PerformAll(Perform(p, DoSpawn(v)), []);
    assert [] + [Spawn(w, v).1] == [Spawn(w, v).1];
  }

  // ----------------------------------------------------- transactional update

  /** The world after the first k callback invocations, whichever entities they were made for. */
  function Replay(w: World, plan: nat -> Turn, k: nat): (r: World)
    requires WellFormed(w)
    ensures WellFormed(r)
  {
    if k == 0 then w else PerformAll(Progress(Replay(w, plan, k - 1), false, []), plan(k - 1).commands).world
  }

  /** Whether the k-th invocation is accepted: the verdict is yes and nothing in it poisoned the update. */
  predicate TurnAccepted(w: World, plan: nat -> Turn, k: nat)
    requires WellFormed(w)
  {
    plan(k).ok && !PerformAll(Progress(Replay(w, plan, k), false, []), plan(k).commands).failed
  }

  lemma LogIsPassiveOnce(w: World, failed: bool, log1: seq<Handle>, log2: seq<Handle>, c: Command)
    requires WellFormed(w)
    ensures var a := Perform(Progress(w, failed, log1), c);
            var b := Perform(Progress(w, failed, log2), c);
            a.world == b.world && a.failed == b.failed
  {
  }

  /** What commands do to the world does not depend on the log of issued handles. */
  lemma {:induction false} LogIsPassive(w: World, failed: bool, log1: seq<Handle>, log2: seq<Handle>, cs: seq<Command>)
    requires WellFormed(w)
    ensures var a := PerformAll(Progress(w, failed, log1), cs);
            var b := PerformAll(Progress(w, failed, log2), cs);
            a.world == b.world && a.failed == b.failed
    decreases |cs|
  {
    if cs != [] {
      LogIsPassiveOnce(w, failed, log1, log2, cs[0]);
      var a := Perform(Progress(w, failed, log1), cs[0]);
      var b := Perform(Progress(w, failed, log2), cs[0]);
      LogIsPassive(a.world, a.failed, a.issued, b.issued, cs[1..]);
    }
  }

  /** Each visited handle resolved when its turn came. */
  ghost predicate ResolvedInTurn(w0: World, plan: nat -> Turn, visited: seq<Handle>)
    requires WellFormed(w0)
  {
    forall k :: 0 <= k < |visited| ==> Resolves(Replay(w0, plan, k), visited[k])
  }

  ghost predicate AllAccepted(w0: World, plan: nat -> Turn, n: nat)
    requires WellFormed(w0)
  {
    forall k: nat :: k < n ==> TurnAccepted(w0, plan, k)
  }

  /** `visited` then `handles` rise in slot order. */
  ghost predicate StillInOrder(visited: seq<Handle>, handles: seq<Handle>) {
    && InSlotOrder(visited)
    && InSlotOrder(handles)
    && (forall i, j :: 0 <= i < |visited| && 0 <= j < |handles| ==> Index(visited[i]) < Index(handles[j]))
  }

  /** A tour of w0 with `visited` behind it, all accepted, and `handles` still ahead. */
  ghost predicate Underway(w0: World, handles: seq<Handle>, plan: nat -> Turn, visited: seq<Handle>)
    requires WellFormed(w0)
  {
    && ResolvedInTurn(w0, plan, visited)
    && AllAccepted(w0, plan, |visited|)
    && StillInOrder(visited, handles)
    && Later(w0, Replay(w0, plan, |visited|))
    && (forall h :: h in handles ==> Issued(w0, h))
  }

  lemma OrderAdvances(visited: seq<Handle>, handles: seq<Handle>)
    requires handles != [] && StillInOrder(visited, handles)
    ensures StillInOrder(visited, handles[1..]) && StillInOrder(visited + [handles[0]], handles[1..])
  {
  }

  lemma LaterTransitive(a: World, b: World, c: World)
    requires Later(a, b) && Later(b, c)
    ensures Later(a, c)
  {
  }

  lemma ResolvedOneMore(w0: World, plan: nat -> Turn, visited: seq<Handle>, h: Handle)
    requires WellFormed(w0) && ResolvedInTurn(w0, plan, visited)
    requires Resolves(Replay(w0, plan, |visited|), h)
    ensures ResolvedInTurn(w0, plan, visited + [h])
  {
    hide Replay, Resolves;
    forall k | 0 <= k < |visited| + 1 ensures Resolves(Replay(w0, plan, k), (visited + [h])[k]) {
      assert k < |visited| ==> Resolves(Replay(w0, plan, k), visited[k]);
    }
  }

  lemma AcceptedOneMore(w0: World, plan: nat -> Turn, n: nat)
    requires WellFormed(w0) && AllAccepted(w0, plan, n) && TurnAccepted(w0, plan, n)
    ensures AllAccepted(w0, plan, n + 1)
  {
  }

  lemma ReplayLater(w0: World, plan: nat -> Turn, n: nat)
    requires WellFormed(w0) && Later(w0, Replay(w0, plan, n))
    ensures Later(w0, Replay(w0, plan, n + 1))
  {
    var w := Replay(w0, plan, n);
    PerformAllLater(Progress(w, false, []), plan(n).commands);
    LaterTransitive(w0, w, Replay(w0, plan, n + 1));
  }

  lemma CallingStaysUnderway(w0: World, handles: seq<Handle>, plan: nat -> Turn, visited: seq<Handle>)
    requires WellFormed(w0) && handles != [] && Underway(w0, handles, plan, visited)
    requires Resolves(Replay(w0, plan, |visited|), handles[0]) && TurnAccepted(w0, plan, |visited|)
    ensures Underway(w0, handles[1..], plan, visited + [handles[0]])
  {
    hide Replay, Later, ResolvedInTurn, AllAccepted, StillInOrder, Resolves, TurnAccepted, WellFormed;
    ResolvedOneMore(w0, plan, visited, handles[0]);
    AcceptedOneMore(w0, plan, |visited|);
    ReplayLater(w0, plan, |visited|);
    OrderAdvances(visited, handles);
    assert |visited + [handles[0]]| == |visited| + 1;
  }

  /** Where h comes in slot order among the visited handles: k of them are before it. */
  predicate TurnOf(visited: seq<Handle>, h: Handle, k: nat) {
    && k <= |visited|
    && (forall j :: 0 <= j < k ==> Index(visited[j]) < Index(h))
    && (forall j :: k <= j < |visited| ==> Index(h) <= Index(visited[j]))
  }

  /** The tour did not end before it came to h: no invocation was refused, or the refused, last one is not before h. */
  ghost predicate HadItsTurn(w0: World, plan: nat -> Turn, visited: seq<Handle>, h: Handle)
    requires WellFormed(w0)
  {
    AllAccepted(w0, plan, |visited|) || (visited != [] && Index(h) <= Index(visited[|visited| - 1]))
  }

  /** The callback was called for h exactly if h resolved after the invocations for the entities before it. */
  ghost predicate CalledIffLive(w0: World, plan: nat -> Turn, visited: seq<Handle>, h: Handle)
    requires WellFormed(w0)
  {
    exists k: nat :: TurnOf(visited, h, k) && (h in visited <==> Resolves(Replay(w0, plan, k), h))
  }

  /** How a tour that had called `visited` and had `handles` ahead of it may end. */
  ghost predicate TourFollows(w0: World, plan: nat -> Turn, visited: seq<Handle>, handles: seq<Handle>, t: Tour)
    requires WellFormed(w0)
  {
    && ResolvedInTurn(w0, plan, t.visited)
    && InSlotOrder(t.visited)
    && visited <= t.visited
    && (forall h :: h in t.visited ==> h in visited || h in handles)
    && t.world == Replay(w0, plan, |t.visited|)
    && (t.visited != [] ==> AllAccepted(w0, plan, |t.visited| - 1))
    && (t.ok <==> AllAccepted(w0, plan, |t.visited|))
    && (forall h :: h in handles && HadItsTurn(w0, plan, t.visited, h) ==> CalledIffLive(w0, plan, t.visited, h))
  }

  lemma VisitedIsCalled(w0: World, plan: nat -> Turn, visited: seq<Handle>, k: nat)
    requires WellFormed(w0) && ResolvedInTurn(w0, plan, visited) && InSlotOrder(visited) && k < |visited|
    ensures CalledIffLive(w0, plan, visited, visited[k])
  {
    hide Replay, Resolves;
    assert TurnOf(visited, visited[k], k);
  }

  lemma SkippedPlace(visited: seq<Handle>, handles: seq<Handle>, all: seq<Handle>)
    requires handles != [] && StillInOrder(visited, handles) && visited <= all && InSlotOrder(all)
    requires forall h :: h in all ==> h in visited || h in handles[1..]
    ensures TurnOf(all, handles[0], |visited|) && handles[0] !in all
  {
    forall j | |visited| <= j < |all| ensures Index(handles[0]) < Index(all[j]) { assert all[j] in all; }
  }

  lemma TourAfterSkip(w0: World, plan: nat -> Turn, visited: seq<Handle>, handles: seq<Handle>, t: Tour)
    requires WellFormed(w0) && handles != [] && StillInOrder(visited, handles)
    requires !Resolves(Replay(w0, plan, |visited|), handles[0])
    requires TourFollows(w0, plan, visited, handles[1..], t)
    ensures TourFollows(w0, plan, visited, handles, t)
  {
    hide Replay, Resolves, AllAccepted, ResolvedInTurn, InSlotOrder, StillInOrder, TurnOf, HadItsTurn;
    SkippedPlace(visited, handles, t.visited);
    assert CalledIffLive(w0, plan, t.visited, handles[0]);
    hide CalledIffLive;
  }

  lemma TourAfterCall(w0: World, plan: nat -> Turn, visited: seq<Handle>, handles: seq<Handle>, t: Tour)
    requires WellFormed(w0) && handles != []
    requires TourFollows(w0, plan, visited + [handles[0]], handles[1..], t)
    ensures TourFollows(w0, plan, visited, handles, t)
  {
    hide Replay, Resolves, AllAccepted, CalledIffLive;
    assert handles[0] == t.visited[|visited|];
    VisitedIsCalled(w0, plan, t.visited, |visited|);
  }

  lemma TourAfterRefusal(w0: World, plan: nat -> Turn, visited: seq<Handle>, handles: seq<Handle>, t: Tour)
    requires WellFormed(w0) && handles != [] && Underway(w0, handles, plan, visited)
    requires Resolves(Replay(w0, plan, |visited|), handles[0]) && !TurnAccepted(w0, plan, |visited|)
    requires !t.ok && t.visited == visited + [handles[0]] && t.world == Replay(w0, plan, |visited| + 1)
    ensures TourFollows(w0, plan, visited, handles, t)
  {
    hide Replay, Later, ResolvedInTurn, Resolves, TurnAccepted, CalledIffLive;
    ResolvedOneMore(w0, plan, visited, handles[0]);
    OrderAdvances(visited, handles);
    VisitedInOrder(visited, handles);
    assert t.visited[|visited|] == handles[0];
    VisitedIsCalled(w0, plan, t.visited, |visited|);
    assert forall h :: h in handles && HadItsTurn(w0, plan, t.visited, h) ==> h == handles[0];
  }

  lemma VisitedInOrder(visited: seq<Handle>, handles: seq<Handle>)
    requires handles != [] && StillInOrder(visited, handles)
    ensures InSlotOrder(visited + [handles[0]])
  {
    OrderAdvances(visited, handles);
  }

  lemma CallEffects(w0: World, plan: nat -> Turn, k: nat, issued: seq<Handle>)
    requires WellFormed(w0)
    ensures var p := PerformAll(Progress(Replay(w0, plan, k), false, issued), plan(k).commands);
            p.world == Replay(w0, plan, k + 1) && (plan(k).ok && !p.failed <==> TurnAccepted(w0, plan, k))
  {
    LogIsPassive(Replay(w0, plan, k), false, issued, [], plan(k).commands);
  }

  lemma {:induction false} VisitFollowsReplay(w0: World, handles: seq<Handle>, plan: nat -> Turn,
                                              visited: seq<Handle>, issued: seq<Handle>)
    requires WellFormed(w0) && Underway(w0, handles, plan, visited)
    ensures TourFollows(w0, plan, visited, handles, Visit(Replay(w0, plan, |visited|), handles, plan, visited, issued))
    decreases |handles|
  {
    var w := Replay(w0, plan, |visited|);
    if handles != [] {
      var h0 := handles[0];
      var t := Visit(w, handles, plan, visited, issued);
      OrderAdvances(visited, handles);
      if !Resolves(w, h0) {
        VisitFollowsReplay(w0, handles[1..], plan, visited, issued);
        TourAfterSkip(w0, plan, visited, handles, t);
      } else {
        var p := PerformAll(Progress(w, false, issued), plan(|visited|).commands);
        CallEffects(w0, plan, |visited|, issued);
        assert |visited + [h0]| == |visited| + 1;
        if TurnAccepted(w0, plan, |visited|) {
          CallingStaysUnderway(w0, handles, plan, visited);
          VisitFollowsReplay(w0, handles[1..], plan, visited + [h0], p.issued);
          TourAfterCall(w0, plan, visited, handles, t);
        } else {
          TourAfterRefusal(w0, plan, visited, handles, t);
        }
      }
    }
  }

  /** An update is a transaction. It succeeds iff every invocation it made was accepted and the final step is
      possible; nothing is called after a refusal. The invocations went in slot order, to entry handles only and none
      born in the update, and to exactly those entry handles that resolved when their turn came, as far as the tour
      got. On success the clock advanced by one; on failure the world is exactly what it was. */
  lemma UpdateIsTransactional(w: World, plan: nat -> Turn)
    requires WellFormed(w)
    ensures var t := Update(w, plan);
            var final := Replay(w, plan, |t.visited|);
            && ResolvedInTurn(w, plan, t.visited) && InSlotOrder(t.visited)
            && (forall h :: h in t.visited ==> Resolves(w, h) && h !in t.issued)
            && (forall h :: Resolves(w, h) && HadItsTurn(w, plan, t.visited, h)
                  ==> CalledIffLive(w, plan, t.visited, h))
            && (t.visited != [] ==> AllAccepted(w, plan, |t.visited| - 1))
            && (t.ok <==> AllAccepted(w, plan, |t.visited|) && CanStep(final))
            && (!t.ok ==> t.world == w)
            && (t.ok ==> t.world == Step(final).0 && t.world.tick == w.tick + 1)
  {
    EnumerationIsExact(w);
    var hs := Live(w);
    forall h | h in hs ensures Issued(w, h) { assert Resolves(w, h); }
    VisitFollowsReplay(w, hs, plan, [], []);
    VisitExtends(w, w, hs, plan, [], []);
    ReplayKeepsTick(w, plan, |Visit(w, hs, plan, [], []).visited|);
    hide Replay, CalledIffLive, HadItsTurn;
  }

  lemma PerformKeepsTick(p: Progress, c: Command)
    requires WellFormed(p.world)
    ensures Perform(p, c).world.tick == p.world.tick && (p.failed ==> Perform(p, c).failed)
  {
  }

  lemma {:induction false} PerformAllKeepsTick(p: Progress, cs: seq<Command>)
    requires WellFormed(p.world)
    ensures PerformAll(p, cs).world.tick == p.world.tick
    ensures p.failed ==> PerformAll(p, cs).failed
    decreases |cs|
  {
    if cs != [] {
      PerformKeepsTick(p, cs[0]);
      hide WellFormed, Perform;
      PerformAllKeepsTick(Perform(p, cs[0]), cs[1..]);
    }
  }

  lemma {:induction false} ReplayKeepsTick(w: World, plan: nat -> Turn, k: nat)
    requires WellFormed(w)
    ensures Replay(w, plan, k).tick == w.tick
  {
    hide WellFormed, PerformAll;
    if k > 0 {
      ReplayKeepsTick(w, plan, k - 1);
      var before := Replay(w, plan, k - 1);
      PerformAllKeepsTick(Progress(before, false, []), plan(k - 1).commands);
      assert Replay(w, plan, k) == PerformAll(Progress(before, false, []), plan(k - 1).commands).world;
    }
  }

  predicate Advances(c: Command) {
    c.DoStep? || c.DoLoad? || c.DoUpdate?
  }

  lemma {:induction false} AdvancementPoisons(p: Progress, cs: seq<Command>, i: nat)
    requires WellFormed(p.world) && i < |cs| && Advances(cs[i]) && p.world.tick < U64_MAX
    ensures PerformAll(p, cs).failed
    decreases |cs|
  {
    var p1 := Perform(p, cs[0]);
    PerformAllKeepsTick(p, cs[..1]);
    if i == 0 { PerformAllKeepsTick(p1, cs[1..]); } else { AdvancementPoisons(p1, cs[1..], i - 1); }
  }

  /** A nested step, load or update in any invocation that was made aborts the update. */
  lemma NestedAdvancementAborts(w: World, plan: nat -> Turn, k: nat, i: nat)
    requires WellFormed(w) && k < |Update(w, plan).visited|
    requires i < |plan(k).commands| && Advances(plan(k).commands[i])
    ensures !Update(w, plan).ok && Update(w, plan).world == w
  {
    UpdateIsTransactional(w, plan);
    var t := Update(w, plan);
    ReplayKeepsTick(w, plan, k);
    ReplayKeepsTick(w, plan, |t.visited|);
    if w.tick < U64_MAX {
      AdvancementPoisons(Progress(Replay(w, plan, k), false, []), plan(k).commands, i);
      assert !TurnAccepted(w, plan, k);
    }
  }

  // ------------------------------------------------------------ free of drift

  /** n steps, all of which must be granted. */
  function StepTimes(w: World, n: nat): (r: (World, bool))
    requires WellFormed(w)
    ensures WellFormed(r.0) && |r.0.slots| == |w.slots|
  {
    if n == 0 then (w, true)
    else
      var (w1, ok) := StepTimes(w, n - 1);
      StepWellFormed(w1);
      (Step(w1).0, ok && Step(w1).1)
  }

  /** The animation clock of an entity in 1/256 ticks. */
  function Clock(v: EntityValue): int {
    256 * v.animationTick + v.animationSubtick
  }

  predicate SameSettings(a: EntityValue, b: EntityValue) {
    b == a.(x := b.x, y := b.y, animationTick := b.animationTick, animationSubtick := b.animationSubtick)
  }

  function ClockRate(v: EntityValue): int {
    if AnimationPaused(v) then 0 else EffectiveRate(v)
  }

  lemma OneMove(v: EntityValue)
    requires ValidValue(v) && CanMove(v)
    ensures var v' := Moved(v);
            && SameSettings(v, v')
            && v'.x == v.x + StepX(v) && v'.y == v.y + StepY(v) && Clock(v') == Clock(v) + ClockRate(v)
            && StepX(v') == StepX(v) && StepY(v') == StepY(v) && ClockRate(v') == ClockRate(v)
  {
  }

  /** Over n granted steps an active entity's position has moved by exactly n displacements, its clock by exactly
      n effective rates (0 when paused), and nothing else about it has changed. */
  lemma {:induction false} SteppingIsDriftFree(w: World, n: nat, i: nat)
    requires WellFormed(w) && i < |w.slots| && w.slots[i].active && StepTimes(w, n).1
    ensures var v, w' := w.slots[i].value, StepTimes(w, n).0;
            var v' := w'.slots[i].value;
            && w'.tick == w.tick + n
            && w'.slots[i].active && w'.slots[i].generation == w.slots[i].generation
            && SameSettings(v, v')
            && v'.x == v.x + n * StepX(v) && v'.y == v.y + n * StepY(v)
            && Clock(v') == Clock(v) + n * ClockRate(v)
  {
    if n > 0 {
      SteppingIsDriftFree(w, n - 1, i);
      var v, w1 := w.slots[i].value, StepTimes(w, n - 1).0;
      assert ValidSlot(w1.types, w1.slots[i]) && CanMove(w1.slots[i].value);
      OneMove(w1.slots[i].value);
      hide WellFormed, Moved, StepX, StepY, Clock, EffectiveRate, CanMove, ValidSlot;
      assert n * StepX(v) == (n - 1) * StepX(v) + StepX(v);
      assert n * StepY(v) == (n - 1) * StepY(v) + StepY(v);
      assert n * ClockRate(v) == (n - 1) * ClockRate(v) + ClockRate(v);
    }
  }
}
