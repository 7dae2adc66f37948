/**
 The buffers of the map registry: the engine keeps pointers into the buffer of the map
 it plays, so a replaced buffer that is pinned is retired instead of freed. Addresses are
 numbers, 0 is NULL, and the allocator may hand out a freed address again.
 */
module RegistryBuffers {
  import A = Animation

  const VANILLA_MAPS := 5

  /** One call of free on a map array: its address, the pin at that moment, and whether the address was allocated. */
  datatype Freed = Freed(address: nat, pinned: nat, live: bool)

  /** `live`, `leaked` and `freed` are the allocator's books: what is live, what was given up because it could not
      be tracked, and every free so far. */
  datatype State = State(
    inited: bool, current: nat, count: nat, pinned: nat, selected: int, retired: seq<nat>,
    live: set<nat>, leaked: set<nat>, freed: seq<Freed>)

  function Start(): State { State(false, 0, 0, 0, -1, [], {}, {}, []) }

  /** What a rescan comes to: nothing new, a buffer that is refused, or one that replaces the registry; `tracked` says
      whether the note about a retired buffer could be allocated. */
  datatype Scan = Unchanged | Rejected(address: nat) | Accepted(address: nat, count: nat, tracked: bool)

  /** The allocator gives out addresses that are not in use; an empty registry has no buffer. */
  predicate Possible(s: State, scan: Scan) {
    match scan
    case Unchanged => true
    case Rejected(a) => a !in s.live
    case Accepted(a, count, _) => a !in s.live && (a == 0 ==> count == 0)
  }

  function FreeArray(s: State, address: nat): State {
    if address == 0 then s
    else s.(live := s.live - {address}, freed := s.freed + [Freed(address, s.pinned, address in s.live)])
  }

  /** Goes through a list of retired buffers and keeps only the pinned one. */
  function Sweep(s: State, list: seq<nat>): State
    decreases |list|
  {
    if list == [] then s
    else if list[0] == s.pinned then Sweep(s.(retired := s.retired + [list[0]]), list[1..])
    else Sweep(FreeArray(s, list[0]), list[1..])
  }

  function FreeUnpinned(s: State): State { Sweep(s.(retired := []), s.retired) }

  function FreeAll(s: State, list: seq<nat>): State
    decreases |list|
  {
    if list == [] then s else FreeAll(FreeArray(s, list[0]), list[1..])
  }

  /** Newly retired buffers go to the front of the list. */
  function Retire(s: State, address: nat, tracked: bool): State {
    if address == 0 then s
    else if tracked then s.(retired := [address] + s.retired)
    else s.(leaked := s.leaked + {address})
  }

  function SwapIn(s: State, address: nat, count: nat, tracked: bool): State {
    var before := s.current;
    var next := s.(current := address, count := count);
    FreeUnpinned(if before == s.pinned then Retire(next, before, tracked) else FreeArray(next, before))
  }

  /** A rescan of the map directory. */
  function Reloaded(s: State, scan: Scan): State {
    if !s.inited then s
    else
      match scan
      case Unchanged => s
      case Rejected(a) => FreeArray(s.(live := if a == 0 then s.live else s.live + {a}), a)
      case Accepted(a, count, tracked) =>
        SwapIn(s.(live := if a == 0 then s.live else s.live + {a}), a, count, tracked)
  }

  function Inited(s: State, scan: Scan): State {
    if s.inited then s else Reloaded(s.(inited := true, current := 0, count := 0, pinned := 0, selected := -1), scan)
  }

  /** C's remainder, which takes the sign of its left operand, made non-negative. */
  function PositiveMod(a: int, m: int): (r: int)
    requires m > 0
    ensures r == a % m
  {
    var remainder := if a >= 0 then a % m else -((-a) % m);
    NegativeRemainder(a, m);
    if remainder < 0 then remainder + m else remainder
  }

  lemma NegativeRemainder(a: int, m: int)
    requires m > 0
    ensures a < 0 ==> a % m == if (-a) % m == 0 then 0 else m - (-a) % m
  {
    if a < 0 {
      var (q, r) := ((-a) / m, (-a) % m);
      assert -a == q * m + r;
      if r == 0 {
        assert a == -q * m;
        A.RemainderIsUnique(a, -q, 0, m);
      } else {
        assert a == (-q - 1) * m + (m - r);
        A.RemainderIsUnique(a, -q - 1, m - r, m);
      }
    }
  }

  /** Pins whatever the selector picks: a custom map's buffer, or none for a vanilla map. */
  function Pinned(s: State, selector: int): State {
    if s.count == 0 then FreeUnpinned(s.(pinned := 0, selected := -1))
    else
      var n := PositiveMod(selector, VANILLA_MAPS + s.count);
      if n < VANILLA_MAPS then FreeUnpinned(s.(pinned := 0, selected := n))
      else FreeUnpinned(s.(pinned := s.current, selected := n))
  }

  function MapgenInit(s: State, scan: Scan, selector: int): State { Pinned(Reloaded(s, scan), selector) }

  function ShutDown(s: State): State {
    var cleared := FreeArray(s, s.current).(current := 0, count := 0, pinned := 0, selected := -1);
    FreeAll(cleared, s.retired).(retired := [], inited := false)
  }

  // ------------------------------------------------------------------- runs

  datatype Operation = Init(scan: Scan) | Reload(scan: Scan) | Mapgen(scan: Scan, selector: int) | Shutdown

  predicate Allowed(s: State, op: Operation) {
    match op
    case Init(scan) => Possible(s, scan)
    case Reload(scan) => Possible(s, scan)
    case Mapgen(scan, _) => Possible(s, scan)
    case Shutdown => true
  }

  function Step(s: State, op: Operation): State {
    match op
    case Init(scan) => Inited(s, scan)
    case Reload(scan) => Reloaded(s, scan)
    case Mapgen(scan, selector) => MapgenInit(s, scan, selector)
    case Shutdown => ShutDown(s)
  }

  function Run(ops: seq<Operation>): State {
    if ops == [] then Start() else Step(Run(ops[..|ops| - 1]), ops[|ops| - 1])
  }

  ghost predicate AllAllowed(ops: seq<Operation>) {
    forall n :: 0 <= n < |ops| ==> Allowed(Run(ops[..n]), ops[n])
  }

  // ---------------------------------------------------------------- ownership

  function Elements(list: seq<nat>): set<nat> { set a | a in list }

  predicate Distinct(list: seq<nat>) {
    forall i, j :: 0 <= i < j < |list| ==> list[i] != list[j]
  }

  /** Every allocated buffer has exactly one keeper: the registry, the retired list or nobody. */
  predicate Owned(s: State) {
    && 0 !in s.live && 0 !in s.leaked && 0 !in s.retired && Distinct(s.retired)
    && s.live == ((if s.current == 0 then {} else {s.current}) + Elements(s.retired) + s.leaked)
    && (s.current != 0 ==> s.current !in s.retired && s.current !in s.leaked)
    && Elements(s.retired) !! s.leaked
    && (s.pinned != 0 ==> s.pinned in s.live)
    && (!s.inited ==> s.current == 0 && s.pinned == 0 && s.retired == [])
    && (s.current == 0 ==> s.count == 0)
  }

  /** What holds between operations: ownership, and no retired buffer but the pinned one. */
  predicate Settled(s: State) {
    Owned(s) && forall a :: a in s.retired ==> a == s.pinned
  }

  /** From one log of frees to a longer one only allocated buffers were freed, and none while pinned. */
  predicate CleanAfter(before: seq<Freed>, after: seq<Freed>) {
    before <= after && forall i :: |before| <= i < |after| ==> after[i].live && after[i].address != after[i].pinned
  }

  lemma CleanTwice(a: seq<Freed>, b: seq<Freed>, c: seq<Freed>)
    requires CleanAfter(a, b) && CleanAfter(b, c)
    ensures CleanAfter(a, c)
  {
  }

  lemma HeadAndRest(list: seq<nat>)
    requires Distinct(list) && list != []
    ensures Distinct(list[1..]) && list[0] !in list[1..] && Elements(list) == {list[0]} + Elements(list[1..])
    ensures 0 !in list ==> list[0] != 0 && 0 !in list[1..]
  {
    var rest := list[1..];
    assert forall j :: 0 <= j < |rest| ==> rest[j] == list[j + 1];
    assert list == [list[0]] + rest;
  }

  /** Sweeping a list of owned buffers frees each of them but the pinned one, once. */
  lemma {:induction false} SweepSettles(s: State, list: seq<nat>)
    requires 0 !in list && Distinct(list) && Distinct(s.retired) && 0 !in s.retired
    requires Elements(list) <= s.live && Elements(list) !! Elements(s.retired)
    requires forall a :: a in s.retired ==> a == s.pinned
    ensures var t := Sweep(s, list);
            && t == s.(retired := t.retired, live := t.live, freed := t.freed)
            && t.live == s.live - (Elements(list) - {s.pinned})
            && Elements(t.retired) == Elements(s.retired) + Elements(list) * {s.pinned}
            && Distinct(t.retired) && 0 !in t.retired
            && CleanAfter(s.freed, t.freed)
    decreases |list|
  {
    if list != [] {
      var a, rest := list[0], list[1..];
      HeadAndRest(list);
      hide Distinct;
      if a == s.pinned {
        assert a in Elements(list) && a !in Elements(s.retired);
        KeptIsDistinct(s.retired, a);
        SweepSettles(s.(retired := s.retired + [a]), rest);
      } else {
        SweepSettles(FreeArray(s, a), rest);
      }
    }
  }

  lemma KeptIsDistinct(list: seq<nat>, a: nat)
    requires Distinct(list) && a !in list
    ensures Distinct(list + [a]) && Elements(list + [a]) == Elements(list) + {a}
  {
  }

  lemma {:induction false} FreeAllReleases(s: State, list: seq<nat>)
    requires 0 !in list && Distinct(list) && Elements(list) <= s.live && s.pinned == 0
    ensures var t := FreeAll(s, list);
            && t == s.(live := t.live, freed := t.freed) && t.live == s.live - Elements(list)
            && CleanAfter(s.freed, t.freed)
            && s.freed <= t.freed
            && (forall i :: |s.freed| <= i < |t.freed| ==> t.freed[i].live && t.freed[i].pinned == 0 && t.freed[i].address != 0)
    decreases |list|
  {
    if list != [] {
      HeadAndRest(list);
      hide Distinct;
      FreeAllReleases(FreeArray(s, list[0]), list[1..]);
    }
  }

  /** Sweeping the retired list settles any owned state. */
  lemma FreeUnpinnedSettles(s: State)
    requires Owned(s)
    ensures var t := FreeUnpinned(s);
            && Settled(t) && t == s.(retired := t.retired, live := t.live, freed := t.freed)
            && CleanAfter(s.freed, t.freed)
  {
    SweepSettles(s.(retired := []), s.retired);
    hide Sweep, Distinct, CleanAfter;
    var t := FreeUnpinned(s);
    forall a | a in t.retired ensures a == s.pinned { assert a in Elements(t.retired); }
    forall a | a in t.retired ensures a in s.retired { assert a in Elements(t.retired); }
  }

  lemma RetiredInFront(list: seq<nat>, a: nat)
    requires Distinct(list) && a !in list
    ensures Distinct([a] + list) && Elements([a] + list) == {a} + Elements(list)
  {
  }

  lemma SwapInSettles(s: State, address: nat, count: nat, tracked: bool)
    requires Settled(s.(live := s.live - {address})) && s.inited && (address == 0 ==> count == 0)
    requires 0 !in s.live
    requires address != 0 ==> address in s.live
    requires address == s.current ==> address == 0
    requires address != 0 ==> address !in s.retired && address !in s.leaked && address != s.pinned
    ensures var t := SwapIn(s, address, count, tracked);
            && Settled(t) && t.inited && t.pinned == s.pinned && t.selected == s.selected
            && t.current == address && t.count == count
            && CleanAfter(s.freed, t.freed)
  {
    var before := s.current;
    var next := s.(current := address, count := count);
    var middle := if before == s.pinned then Retire(next, before, tracked) else FreeArray(next, before);
    if before != 0 && before == s.pinned { RetiredInFront(s.retired, before); }
    assert Elements([]) == {};
    assert Owned(middle);
    assert CleanAfter(s.freed, middle.freed);
    hide CleanAfter, Owned;
    FreeUnpinnedSettles(middle);
  }

  lemma ReloadSettles(s: State, scan: Scan)
    requires Settled(s) && Possible(s, scan)
    ensures var t := Reloaded(s, scan);
            Settled(t) && t.pinned == s.pinned && t.inited == s.inited && CleanAfter(s.freed, t.freed)
  {
    if s.inited {
      match scan {
        case Unchanged =>
        case Rejected(a) => assert s.live + {a} - {a} == s.live || a == 0;
        case Accepted(a, count, tracked) =>
          var grown := s.(live := if a == 0 then s.live else s.live + {a});
          assert grown.live - {a} == s.live || a == 0;
          assert a == 0 ==> grown.live - {a} == s.live;
          assert grown.(live := grown.live - {a}) == s;
          assert 0 !in grown.live;
          hide CleanAfter, Settled;
          assert a != 0 ==> a !in s.retired && a !in s.leaked && a != s.pinned && a != s.current by { LiveIsKept(s); }
          SwapInSettles(grown, a, count, tracked);
      }
    }
  }

  lemma LiveIsKept(s: State)
    requires Settled(s)
    ensures s.current != 0 ==> s.current in s.live
    ensures s.pinned != 0 ==> s.pinned in s.live
    ensures forall a :: a in s.retired || a in s.leaked ==> a in s.live
  {
    forall a | a in s.retired ensures a in s.live { assert a in Elements(s.retired); }
  }

  lemma PinSettles(s: State, selector: int)
    requires Settled(s)
    ensures var t := Pinned(s, selector);
            && Settled(t) && CleanAfter(s.freed, t.freed)
            && (t.pinned == 0 || t.pinned == s.current)
  {
    LiveIsKept(s);
    var pin := if s.count == 0 || PositiveMod(selector, VANILLA_MAPS + s.count) < VANILLA_MAPS then 0 else s.current;
    if !s.inited { assert s.current == 0; }
    var n := if s.count == 0 then -1 else PositiveMod(selector, VANILLA_MAPS + s.count);
    assert Owned(s.(pinned := pin, selected := n));
    FreeUnpinnedSettles(s.(pinned := pin, selected := n));
    hide CleanAfter, Owned, FreeUnpinned, PositiveMod;
  }

  lemma {:induction false} RunSettles(ops: seq<Operation>)
    requires AllAllowed(ops)
    ensures Settled(Run(ops))
    decreases |ops|
  {
    hide Settled, Step, Allowed;
    if ops == [] {
      StartSettles();
    } else {
      var n := |ops| - 1;
      FrontIsAllowed(ops);
      RunSettles(ops[..n]);
      StepSettles(Run(ops[..n]), ops[n]);
    }
  }

  lemma FrontIsAllowed(ops: seq<Operation>)
    requires AllAllowed(ops) && ops != []
    ensures AllAllowed(ops[..|ops| - 1]) && Allowed(Run(ops[..|ops| - 1]), ops[|ops| - 1])
  {
    hide Allowed, Run;
    var front := ops[..|ops| - 1];
    forall n | 0 <= n < |front| ensures Allowed(Run(front[..n]), front[n]) {
      assert front[..n] == ops[..n] && Allowed(Run(ops[..n]), ops[n]);
    }
  }

  lemma StartSettles()
    ensures Settled(Start())
  {
  }

  lemma StepSettles(s: State, op: Operation)
    requires Settled(s) && Allowed(s, op)
    ensures Settled(Step(s, op))
    ensures !op.Shutdown? ==> CleanAfter(s.freed, Step(s, op).freed)
  {
    match op {
      case Init(scan) => InitSettles(s, scan);
      case Reload(scan) => ReloadSettles(s, scan);
      case Mapgen(scan, selector) =>
        ReloadSettles(s, scan);
        PinSettles(Reloaded(s, scan), selector);
      case Shutdown => ShutDownReleases(s);
    }
  }

  lemma InitSettles(s: State, scan: Scan)
    requires Settled(s) && Possible(s, scan)
    ensures Settled(Inited(s, scan)) && CleanAfter(s.freed, Inited(s, scan).freed)
  {
    if !s.inited {
      var started := s.(inited := true, current := 0, count := 0, pinned := 0, selected := -1);
      assert Settled(started);
      hide CleanAfter, Settled;
      ReloadSettles(started, scan);
    }
  }

  /** Shutting down releases every buffer but the ones that could not be tracked. It frees each once; the only buffer
      it frees under its own pin is the current one, and the pin is gone before the call returns. */
  lemma ShutDownReleases(s: State)
    requires Settled(s)
    ensures var t := ShutDown(s);
            && Settled(t) && t.live == s.leaked && t.pinned == 0 && t.current == 0 && t.retired == []
            && s.freed <= t.freed
            && (forall i :: |s.freed| <= i < |t.freed| ==> t.freed[i].live)
            && (forall i :: |s.freed| <= i < |t.freed| && t.freed[i].address == t.freed[i].pinned ==>
                  i == |s.freed| && t.freed[i].address == s.current == s.pinned)
            && (s.current != 0 && s.current == s.pinned ==>
                  |t.freed| > |s.freed| && t.freed[|s.freed|] == Freed(s.pinned, s.pinned, true))
  {
    var cleared := FreeArray(s, s.current).(current := 0, count := 0, pinned := 0, selected := -1);
    forall a | a in Elements(s.retired) ensures a in cleared.live { }
    FreeAllReleases(cleared, s.retired);
    hide FreeAll;
    assert Elements([]) == {};
  }

  // -------------------------------------------------------------- theorems

  /** Over every run: no buffer is freed that is not allocated, so none is freed twice; between operations the pinned
      buffer is allocated and the retired list holds at most it; and every allocated buffer is the registry's, the
      retired one, or one whose note could not be allocated. */
  lemma {:induction false} BuffersLiveLongEnough(ops: seq<Operation>)
    requires AllAllowed(ops)
    ensures var s := Run(ops);
            && (forall i :: 0 <= i < |s.freed| ==> s.freed[i].live)
            && (s.pinned != 0 ==> s.pinned in s.live)
            && (s.retired == [] || s.retired == [s.pinned])
            && s.live == (if s.current == 0 then {} else {s.current}) + Elements(s.retired) + s.leaked
    decreases |ops|
  {
    RunSettles(ops);
    AtMostPinned(Run(ops));
    if ops != [] {
      var n := |ops| - 1;
      FrontIsAllowed(ops);
      BuffersLiveLongEnough(ops[..n]);
      RunSettles(ops[..n]);
      FreesAreLive(Run(ops[..n]), ops[n]);
    }
  }

  lemma OneValue(list: seq<nat>, a: nat)
    requires forall i :: 0 <= i < |list| ==> list[i] == a
    ensures Distinct(list) ==> |list| <= 1
  {
    if |list| > 1 { assert list[0] == list[1]; }
  }

  lemma AtMostPinned(s: State)
    requires Settled(s)
    ensures s.retired == [] || s.retired == [s.pinned]
  {
    forall i | 0 <= i < |s.retired| ensures s.retired[i] == s.pinned { assert s.retired[i] in s.retired; }
    OneValue(s.retired, s.pinned);
  }

  lemma FreesAreLive(s: State, op: Operation)
    requires Settled(s) && Allowed(s, op)
    requires forall i :: 0 <= i < |s.freed| ==> s.freed[i].live
    ensures forall i :: 0 <= i < |Step(s, op).freed| ==> Step(s, op).freed[i].live
  {
    if op.Shutdown? { ShutDownReleases(s); } else { StepSettles(s, op); }
    hide Settled, Allowed;
  }

  /** As long as the program does not shut down, no buffer is freed while it is pinned. */
  lemma {:induction false} PinnedIsNeverFreed(ops: seq<Operation>)
    requires AllAllowed(ops) && forall n :: 0 <= n < |ops| ==> !ops[n].Shutdown?
    ensures CleanAfter([], Run(ops).freed)
    decreases |ops|
  {
    hide Settled, Step, Allowed;
    if ops != [] {
      var n := |ops| - 1;
      FrontIsAllowed(ops);
      PinnedIsNeverFreed(ops[..n]);
      RunSettles(ops[..n]);
      StepSettles(Run(ops[..n]), ops[n]);
      CleanTwice([], Run(ops[..n]).freed, Run(ops).freed);
    }
  }

  predicate PinFreed(before: seq<Freed>, after: seq<Freed>) {
    exists i :: |before| <= i < |after| && after[i].address == after[i].pinned
  }

  /** Exactly when an operation frees the buffer it found pinned, while it is pinned: shutting down while the map being
      played is still in the current registry. */
  lemma PinFreedExactlyAtShutdown(s: State, op: Operation)
    requires Settled(s) && Allowed(s, op)
    ensures PinFreed(s.freed, Step(s, op).freed) <==> op.Shutdown? && s.current != 0 && s.current == s.pinned
  {
    var t := Step(s, op);
    if op.Shutdown? {
      ShutDownReleases(s);
      if s.current != 0 && s.current == s.pinned { assert t.freed[|s.freed|].address == t.freed[|s.freed|].pinned; }
      NoFreedNull(s);
    } else {
      StepSettles(s, op);
    }
    hide Settled, Allowed;
  }

  lemma NoFreedNull(s: State)
    requires Settled(s)
    ensures var t := ShutDown(s); forall i :: |s.freed| <= i < |t.freed| ==> t.freed[i].address != 0
  {
    var cleared := FreeArray(s, s.current).(current := 0, count := 0, pinned := 0, selected := -1);
    forall a | a in Elements(s.retired) ensures a in cleared.live { }
    FreeAllReleases(cleared, s.retired);
    hide FreeAll;
  }

  /** It does happen: a map is played and the program shuts down. */
  lemma ShutdownFreesThePinnedBuffer()
    ensures var ops := [Init(Accepted(7, 1, true)), Mapgen(Unchanged, VANILLA_MAPS), Shutdown];
            AllAllowed(ops) && Freed(7, 7, true) in Run(ops).freed
  {
    var a, b, c := Init(Accepted(7, 1, true)), Mapgen(Unchanged, VANILLA_MAPS), Shutdown;
    var ops := [a, b, c];
    assert ops[..0] == [] && ops[..1] == [a] && ops[..2] == [a, b];
    assert [a][..0] == [] && [a, b][..1] == [a] && ops[..2] == [a, b];
    assert Run([a]) == Step(Start(), a);
    assert Run([a, b]) == Step(Run([a]), b);
    assert Run(ops) == Step(Run([a, b]), c);
    assert Run([a]).current == 7 && Run([a]).count == 1 && Run([a]).retired == [];
    assert Run([a, b]).pinned == 7 && Run([a, b]).current == 7 && Run([a, b]).live == {7};
    assert Run(ops).freed[|Run([a, b]).freed|] == Freed(7, 7, true);
  }

  // ------------------------------------------------------- the buffer in play

  /** What a rescan makes of the registry: a scan that is accepted replaces buffer and number of maps, anything else
      leaves both alone, and the pin and the selection are not its business. */
  lemma RescanReplaces(s: State, scan: Scan)
    requires Settled(s) && Possible(s, scan)
    ensures var t := Reloaded(s, scan);
            && t.pinned == s.pinned && t.selected == s.selected && t.inited == s.inited
            && (if s.inited && scan.Accepted? then t.current == scan.address && t.count == scan.count
                else t.current == s.current && t.count == s.count)
  {
    if s.inited && scan.Accepted? {
      var (a, before) := (scan.address, s.current);
      LiveIsKept(s);
      var next := s.(live := if a == 0 then s.live else s.live + {a}, current := a, count := scan.count);
      var middle := if before == s.pinned then Retire(next, before, scan.tracked) else FreeArray(next, before);
      SwapIsOwned(s, a, scan.count, scan.tracked);
      hide Owned, Settled;
      FreeUnpinnedSettles(middle);
      hide FreeUnpinned;
    }
  }

  /** After a map was chosen nothing is pinned if there are no custom maps or a vanilla one was chosen, the registry's
      buffer otherwise; the choice is the selector's remainder by the number of maps. */
  lemma SelectionPins(s: State, scan: Scan, selector: int)
    requires Settled(s) && Possible(s, scan)
    ensures var (r, t) := (Reloaded(s, scan), MapgenInit(s, scan, selector));
            && t.current == r.current && t.count == r.count
            && (r.count == 0 ==> t.pinned == 0 && t.selected == -1)
            && (r.count > 0 ==>
                  && t.selected == selector % (VANILLA_MAPS + r.count)
                  && (t.selected < VANILLA_MAPS ==> t.pinned == 0)
                  && (t.selected >= VANILLA_MAPS ==> t.pinned == r.current != 0))
  {
    ReloadSettles(s, scan);
    var r := Reloaded(s, scan);
    PinIsOwned(r, selector);
    hide Reloaded, Settled, Owned, FreeUnpinned, PositiveMod;
    if r.count == 0 {
      FreeUnpinnedSettles(r.(pinned := 0, selected := -1));
    } else {
      var n := PositiveMod(selector, VANILLA_MAPS + r.count);
      assert n == selector % (VANILLA_MAPS + r.count);
      if n < VANILLA_MAPS { FreeUnpinnedSettles(r.(pinned := 0, selected := n)); }
      else { FreeUnpinnedSettles(r.(pinned := r.current, selected := n)); }
    }
  }

  /** The buffer of the registry and its number of maps after a rescan. */
  function Rescanned(registry: (nat, nat), scan: Scan): (nat, nat) {
    if scan.Accepted? then (scan.address, scan.count) else registry
  }

  /** The history as the engine sees it, from the operations alone: whether the program runs, the registry's buffer and
      number of maps, and the buffer of the map being played, 0 for a vanilla map or none. */
  datatype History = History(inited: bool, registry: (nat, nat), inPlay: nat)

  function Tell(h: History, op: Operation): History {
    match op
    case Init(scan) => if h.inited then h else History(true, Rescanned((0, 0), scan), 0)
    case Reload(scan) => if h.inited then h.(registry := Rescanned(h.registry, scan)) else h
    case Mapgen(scan, selector) =>
      var registry := if h.inited then Rescanned(h.registry, scan) else h.registry;
      var custom := registry.1 > 0 && selector % (VANILLA_MAPS + registry.1) >= VANILLA_MAPS;
      History(h.inited, registry, if custom then registry.0 else 0)
    case Shutdown => History(false, (0, 0), 0)
  }

  function Told(ops: seq<Operation>): History {
    if ops == [] then History(false, (0, 0), 0) else Tell(Told(ops[..|ops| - 1]), ops[|ops| - 1])
  }

  predicate Matches(s: State, h: History) {
    s.inited == h.inited && (s.current, s.count) == h.registry && s.pinned == h.inPlay
  }

  lemma StepIsTold(s: State, h: History, op: Operation)
    requires Settled(s) && Allowed(s, op) && Matches(s, h)
    ensures Matches(Step(s, op), Tell(h, op))
  {
    hide Settled, Reloaded, Pinned, FreeAll;
    if !s.inited { IdleIsEmpty(s); }
    match op {
      case Init(scan) =>
        if !s.inited {
          var started := s.(inited := true, current := 0, count := 0, pinned := 0, selected := -1);
          StartedSettles(s);
          RescanReplaces(started, scan);
        }
      case Reload(scan) => RescanReplaces(s, scan);
      case Mapgen(scan, selector) =>
        RescanReplaces(s, scan);
        SelectionPins(s, scan, selector);
        PinKeepsRunning(Reloaded(s, scan), selector);
      case Shutdown =>
        FreeAllKeepsList(FreeArray(s, s.current).(current := 0, count := 0, pinned := 0, selected := -1), s.retired);
    }
  }

  lemma IdleIsEmpty(s: State)
    requires Settled(s) && !s.inited
    ensures s.current == 0 && s.count == 0
  {
  }

  lemma StartedSettles(s: State)
    requires Settled(s) && !s.inited
    ensures Settled(s.(inited := true, current := 0, count := 0, pinned := 0, selected := -1))
  {
  }

  lemma PinKeepsRunning(s: State, selector: int)
    ensures Pinned(s, selector).inited == s.inited
  {
    SweepKeepsRunning(s.(pinned := 0, selected := -1, retired := []), s.retired);
    if s.count > 0 {
      var n := PositiveMod(selector, VANILLA_MAPS + s.count);
      SweepKeepsRunning(s.(pinned := 0, selected := n, retired := []), s.retired);
      SweepKeepsRunning(s.(pinned := s.current, selected := n, retired := []), s.retired);
    }
  }

  lemma {:induction false} SweepKeepsRunning(s: State, list: seq<nat>)
    ensures Sweep(s, list).inited == s.inited
    decreases |list|
  {
    if list != [] {
      if list[0] == s.pinned { SweepKeepsRunning(s.(retired := s.retired + [list[0]]), list[1..]); }
      else { SweepKeepsRunning(FreeArray(s, list[0]), list[1..]); }
    }
  }

  /** Initializing and rescanning free nothing while it is pinned, and the pin does not move. */
  lemma PinSurvives(s: State, op: Operation)
    requires Settled(s) && Allowed(s, op) && s.pinned != 0 && (op.Init? || op.Reload?)
    ensures var t := Step(s, op);
            t.pinned == s.pinned && forall i :: |s.freed| <= i < |t.freed| ==> t.freed[i].address != s.pinned
  {
    assert s.inited;
    if op.Reload? {
      ReloadSettles(s, op.scan);
      FreesUnderOnePin(s, op.scan);
    }
  }

  lemma FreesUnderOnePin(s: State, scan: Scan)
    requires Settled(s) && Possible(s, scan)
    ensures var t := Reloaded(s, scan); forall i :: |s.freed| <= i < |t.freed| ==> t.freed[i].pinned == s.pinned
  {
    if s.inited && scan.Accepted? {
      var (a, before) := (scan.address, s.current);
      var next := s.(live := if a == 0 then s.live else s.live + {a}, current := a, count := scan.count);
      var middle := if before == s.pinned then Retire(next, before, scan.tracked) else FreeArray(next, before);
      SweepFreesUnderPin(middle.(retired := []), middle.retired);
    }
  }

  lemma {:induction false} SweepFreesUnderPin(s: State, list: seq<nat>)
    ensures var t := Sweep(s, list);
            s.freed <= t.freed && forall i :: |s.freed| <= i < |t.freed| ==> t.freed[i].pinned == s.pinned
    decreases |list|
  {
    if list != [] {
      if list[0] == s.pinned { SweepFreesUnderPin(s.(retired := s.retired + [list[0]]), list[1..]); }
      else { SweepFreesUnderPin(FreeArray(s, list[0]), list[1..]); }
    }
  }

  /** Over every run the pin is exactly the buffer in play, and registry and flag are what the operations say. */
  lemma {:induction false} PinIsBufferInPlay(ops: seq<Operation>)
    requires AllAllowed(ops)
    ensures Matches(Run(ops), Told(ops))
    decreases |ops|
  {
    if ops != [] {
      var n := |ops| - 1;
      FrontIsAllowed(ops);
      PinIsBufferInPlay(ops[..n]);
      RunSettles(ops[..n]);
      hide AllAllowed, Settled, Allowed, Matches;
      StepIsTold(Run(ops[..n]), Told(ops[..n]), ops[n]);
    }
  }

  /** Nothing frees this address between two logs. */
  predicate Spared(before: seq<Freed>, after: seq<Freed>, address: nat) {
    before <= after && forall i :: |before| <= i < |after| ==> after[i].address != address
  }

  /** The buffer a custom map is played from stays allocated, and nothing frees it, over every run until a map is chosen
      again or the program shuts down, however often the registry is rescanned meanwhile. */
  lemma {:induction false} BufferInPlayIsKept(ops: seq<Operation>, later: seq<Operation>)
    requires AllAllowed(ops + later) && Told(ops).inPlay != 0
    requires forall k :: 0 <= k < |later| ==> later[k].Init? || later[k].Reload?
    ensures Told(ops + later).inPlay == Told(ops).inPlay
    ensures Told(ops).inPlay in Run(ops + later).live
    ensures Spared(Run(ops).freed, Run(ops + later).freed, Told(ops).inPlay)
    decreases |later|
  {
    var all := ops + later;
    if later == [] {
      assert all == ops;
      PinIsBufferInPlay(ops);
      RunSettles(ops);
      LiveIsKept(Run(ops));
    } else {
      var n := |later| - 1;
      var front, op := ops + later[..n], later[n];
      assert all[..|all| - 1] == front && all[|all| - 1] == op;
      FrontIsAllowed(all);
      BufferInPlayIsKept(ops, later[..n]);
      PinIsBufferInPlay(front);
      RunSettles(front);
      InPlayStep(Run(front), Told(front), op);
    }
  }

  lemma InPlayStep(s: State, h: History, op: Operation)
    requires Settled(s) && Allowed(s, op) && Matches(s, h) && h.inPlay != 0 && (op.Init? || op.Reload?)
    ensures Tell(h, op).inPlay == h.inPlay
    ensures h.inPlay in Step(s, op).live && Spared(s.freed, Step(s, op).freed, h.inPlay)
  {
    assert s.inited;
    StepSettles(s, op);
    PinSurvives(s, op);
    LiveIsKept(Step(s, op));
  }

  // ------------------------------------------------- the registry as it runs

  class MapRegistry {
    var inited: bool
    var current: nat
    var count: nat
    var pinned: nat
    var selected: int
    var retired: seq<nat>
    ghost var live: set<nat>
    ghost var leaked: set<nat>
    ghost var freed: seq<Freed>

    ghost function Abs(): State
      reads this
    {
      State(inited, current, count, pinned, selected, retired, live, leaked, freed)
    }

    constructor ()
      ensures Abs() == Start()
    {
      inited, current, count, pinned, selected, retired := false, 0, 0, 0, -1, [];
      live, leaked, freed := {}, {}, [];
    }

    /** Releases a map array; the address must be allocated. */
    method FreeMapArray(address: nat)
      requires address != 0 ==> address in live
      modifies this`live, this`freed
      ensures Abs() == FreeArray(old(Abs()), address)
    {
      if address == 0 { return; }
      live, freed := live - {address}, freed + [Freed(address, pinned, address in live)];
    }

    /** Puts a replaced buffer on the retired list, or gives it up if the note cannot be allocated. */
    method RetireMaps(address: nat, tracked: bool)
      modifies this`retired, this`leaked
      ensures Abs() == Retire(old(Abs()), address, tracked)
    {
      if address == 0 { return; }
      if !tracked {
        leaked := leaked + {address};
        return;
      }
      retired := [address] + retired;
    }

    /** Unlinks and frees every retired buffer but the pinned one. */
    method FreeUnpinnedRetired()
      requires Owned(Abs())
      modifies this`retired, this`live, this`freed
      ensures Abs() == FreeUnpinned(old(Abs()))
    {
      ghost var start := Abs();
      var k := 0;
      assert retired[..0] == [] && retired[0..] == retired;
      while k < |retired|
        invariant k <= |retired| && Abs() == start.(retired := retired, live := live, freed := freed)
        invariant FreeUnpinned(start) == Sweep(Abs().(retired := retired[..k]), retired[k..])
        invariant Distinct(retired) && 0 !in retired && forall i :: 0 <= i < |retired| ==> retired[i] in live
        decreases |retired| - k
      {
        ghost var before := Abs();
        var link := retired[k];
        if link == pinned {
          assert retired[..k] + [link] == retired[..k + 1] && retired[k..][1..] == retired[k + 1..];
          k := k + 1;
        } else {
          retired := retired[..k] + retired[k + 1..];
          FreeMapArray(link);
          assert retired[..k] == before.retired[..k] && retired[k..] == before.retired[k..][1..];
          RemovalKeepsDistinct(before.retired, k);
        }
      }
      assert retired[..k] == retired && retired[k..] == [];
    }

    method FreeRetired()
      requires Distinct(retired) && 0 !in retired && forall a :: a in retired ==> a in live
      modifies this`retired, this`live, this`freed
      ensures Abs() == FreeAll(old(Abs()), old(retired)).(retired := [])
    {
      ghost var start := Abs();
      var list := retired;
      assert list[0..] == list;
      for k := 0 to |list|
        invariant Abs() == start.(live := live, freed := freed)
        invariant FreeAll(start, list) == FreeAll(Abs(), list[k..])
        invariant forall i :: k <= i < |list| ==> list[i] in live
      {
        assert list[k..][1..] == list[k + 1..];
        FreeMapArray(list[k]);
      }
      FreeAllKeepsList(start, list);
      retired := [];
    }

    /** Replaces the registry by a freshly scanned one. */
    method Swap(address: nat, count: nat, tracked: bool)
      requires Settled(Abs()) && inited && (address == 0 ==> count == 0) && address !in live
      modifies this
      ensures Settled(Abs())
      ensures Abs() == Reloaded(old(Abs()), Accepted(address, count, tracked))
    {
      ReloadSettles(Abs(), Accepted(address, count, tracked));
      SwapIsOwned(Abs(), address, count, tracked);
      hide Owned, Settled, FreeUnpinned;
      if address != 0 { live := live + {address}; }
      var before := current;
      this.current, this.count := address, count;
      if before == pinned { RetireMaps(before, tracked); } else { FreeMapArray(before); }
      FreeUnpinnedRetired();
    }

    method Reload(scan: Scan)
      requires Settled(Abs()) && Possible(Abs(), scan)
      modifies this
      ensures Settled(Abs()) && Abs() == Reloaded(old(Abs()), scan)
    {
      ReloadSettles(Abs(), scan);
      hide Settled;
      if !inited { return; }
      match scan {
        case Unchanged =>
        case Rejected(a) =>
          if a != 0 { live := live + {a}; }
          FreeMapArray(a);
        case Accepted(a, count, tracked) => Swap(a, count, tracked);
      }
    }

    method Initialize(scan: Scan)
      requires Settled(Abs()) && Possible(Abs(), scan)
      modifies this
      ensures Settled(Abs()) && Abs() == Inited(old(Abs()), scan)
    {
      InitSettles(Abs(), scan);
      if inited { return; }
      inited, current, count, pinned, selected := true, 0, 0, 0, -1;
      Reload(scan);
    }

    /** Rescans, then lets the engine generate the selected map and pins the buffer it points into. */
    method HandleMapgenInit(scan: Scan, selector: int)
      requires Settled(Abs()) && Possible(Abs(), scan)
      modifies this
      ensures Settled(Abs()) && Abs() == MapgenInit(old(Abs()), scan, selector)
    {
      ghost var start := Abs();
      Reload(scan);
      PinSettles(Abs(), selector);
      PinIsOwned(Abs(), selector);
      hide Settled, Owned, FreeUnpinned, PositiveMod, Reloaded;
      if count == 0 {
        pinned, selected := 0, -1;
        FreeUnpinnedRetired();
        return;
      }
      var n := PositiveMod(selector, VANILLA_MAPS + count);
      if n < VANILLA_MAPS {
        pinned, selected := 0, n;
      } else {
        pinned, selected := current, n;
      }
      FreeUnpinnedRetired();
    }

    method ShutDownAll()
      requires Settled(Abs())
      modifies this
      ensures Settled(Abs()) && Abs() == ShutDown(old(Abs()))
    {
      ShutDownReleases(Abs());
      LiveIsKept(Abs());
      FreeMapArray(current);
      current, count, pinned, selected := 0, 0, 0, -1;
      FreeRetired();
      inited := false;
    }
  }

  lemma RemovalKeepsDistinct(list: seq<nat>, k: nat)
    requires Distinct(list) && k < |list|
    ensures var rest := list[..k] + list[k + 1..];
            Distinct(rest) && forall i :: 0 <= i < |rest| ==> rest[i] != list[k] && rest[i] in list
  {
  }

  lemma {:induction false} FreeAllKeepsList(s: State, list: seq<nat>)
    ensures var t := FreeAll(s, list); t == s.(live := t.live, freed := t.freed)
    decreases |list|
  {
    if list != [] { FreeAllKeepsList(FreeArray(s, list[0]), list[1..]); }
  }

  /** The state a swap sweeps is owned. */
  lemma SwapIsOwned(s: State, address: nat, count: nat, tracked: bool)
    requires Settled(s) && s.inited && (address == 0 ==> count == 0) && address !in s.live
    ensures s.current != 0 ==> s.current in s.live
    ensures var next := s.(live := if address == 0 then s.live else s.live + {address}, current := address, count := count);
            Owned(if s.current == s.pinned then Retire(next, s.current, tracked) else FreeArray(next, s.current))
  {
    LiveIsKept(s);
    if s.current != 0 && s.current == s.pinned { RetiredInFront(s.retired, s.current); }
    assert Elements([]) == {};
  }

  lemma PinIsOwned(s: State, selector: int)
    requires Settled(s)
    ensures Owned(s.(pinned := 0, selected := -1))
    ensures s.count > 0 ==>
      var n := PositiveMod(selector, VANILLA_MAPS + s.count);
      Owned(s.(pinned := 0, selected := n)) && Owned(s.(pinned := s.current, selected := n))
  {
    LiveIsKept(s);
    hide PositiveMod;
  }
}
