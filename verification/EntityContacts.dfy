/**
 The contact query: which pairs of regions of two live entities overlap, in which
 order they are reported, and what the query costs.
 */
module EntityContacts {
  import opened EntityModel
  import opened EntityWorldState

  const MAX_COMPARISONS := 1000000

  // ------------------------------------------------------------ the geometry

  /** Effective local x of a region after instance mirroring. */
  function LocalX(v: EntityValue, r: EntityRegion): int {
    if MirrorsX(v) then 0 - r.x as int - r.width as int else r.x as int
  }

  predicate Overlap(a: EntityValue, ar: EntityRegion, b: EntityValue, br: EntityRegion) {
    var aX, aY := a.x + LocalX(a, ar), a.y + ar.y;
    var bX, bY := b.x + LocalX(b, br), b.y + br.y;
    && ar.mask & br.layer != 0 && br.mask & ar.layer != 0
    && aX < bX + br.width && bX < aX + ar.width && aY < bY + br.height && bY < aY + ar.height
  }

  /** The region covers the cell (x, y) of the 1/256-pixel grid; a mirrored entity is seen in a mirror through its own
      position. */
  predicate CoversCell(v: EntityValue, r: EntityRegion, x: int, y: int) {
    var local := if v.flags % 2 == 1 then v.x - 1 - x else x - v.x;
    r.x <= local < r.x + r.width && r.y <= y - v.y < r.y + r.height
  }

  /** Two regions overlap exactly if each names the other's layer and some cell is covered by both. */
  lemma OverlapIffSharedCell(a: EntityValue, ar: EntityRegion, b: EntityValue, br: EntityRegion)
    requires ValidRegion(ar) && ValidRegion(br)
    ensures Overlap(a, ar, b, br)
       <==> && ar.mask & br.layer != 0 && br.mask & ar.layer != 0
            && exists x, y :: CoversCell(a, ar, x, y) && CoversCell(b, br, x, y)
  {
    if Overlap(a, ar, b, br) {
      var (aX, aY) := (a.x + LocalX(a, ar), a.y + ar.y);
      var (bX, bY) := (b.x + LocalX(b, br), b.y + br.y);
      var (x, y) := (if aX > bX then aX else bX, if aY > bY then aY else bY);
      assert CoversCell(a, ar, x, y) && CoversCell(b, br, x, y);
    }
  }

  // -------------------------------------------------------- what is reported

  /** A pair of regions of two live entities, by slot and by region index. */
  datatype Touch = Touch(i: nat, j: nat, ai: nat, bi: nat)

  datatype Contact = Contact(a: Handle, b: Handle, regionA: u32, regionB: u32, roleA: Role, roleB: Role)

  function RegionsAt(w: World, i: nat): seq<EntityRegion>
    requires i < |w.slots|
  {
    var k := TypeIndex(w.types, w.slots[i].value.typeId);
    if k < 0 then [] else w.types[k].regions
  }

  predicate Touching(w: World, t: Touch) {
    && t.i < t.j < |w.slots|
    && w.slots[t.i].active && w.slots[t.j].active
    && t.ai < |RegionsAt(w, t.i)| && t.bi < |RegionsAt(w, t.j)|
    && Overlap(w.slots[t.i].value, RegionsAt(w, t.i)[t.ai], w.slots[t.j].value, RegionsAt(w, t.j)[t.bi])
  }

  function ContactOf(w: World, t: Touch): Contact
    requires Touching(w, t) && |w.slots| <= WORLD_LIMIT
  {
    var a, b := RegionsAt(w, t.i)[t.ai], RegionsAt(w, t.j)[t.bi];
    Contact(MakeHandle(t.i, w.slots[t.i].generation), MakeHandle(t.j, w.slots[t.j].generation), a.id, b.id, a.role, b.role)
  }

  /** A contact names the two entities by their handles, the lower slot first, and the regions by id and role. */
  lemma ContactNames(w: World, t: Touch)
    requires Touching(w, t) && |w.slots| <= WORLD_LIMIT
    ensures var c := ContactOf(w, t);
            && SlotOf(w.slots, c.a) == t.i < SlotOf(w.slots, c.b) == t.j
            && (c.regionA, c.roleA) == (RegionsAt(w, t.i)[t.ai].id, RegionsAt(w, t.i)[t.ai].role)
            && (c.regionB, c.roleB) == (RegionsAt(w, t.j)[t.bi].id, RegionsAt(w, t.j)[t.bi].role)
  {
    hide Overlap, RegionsAt;
  }

  // Touches in the order the query meets them, from a given position of each loop on.

  function RowFrom(w: World, i: nat, j: nat, ai: nat, bi: nat): seq<Touch>
    requires i < |w.slots| && j < |w.slots| && bi <= |RegionsAt(w, j)|
    decreases |RegionsAt(w, j)| - bi
  {
    if bi == |RegionsAt(w, j)| then []
    else (if Touching(w, Touch(i, j, ai, bi)) then [Touch(i, j, ai, bi)] else []) + RowFrom(w, i, j, ai, bi + 1)
  }

  function PairFrom(w: World, i: nat, j: nat, ai: nat): seq<Touch>
    requires i < |w.slots| && j < |w.slots| && ai <= |RegionsAt(w, i)|
    decreases |RegionsAt(w, i)| - ai
  {
    if ai == |RegionsAt(w, i)| then [] else RowFrom(w, i, j, ai, 0) + PairFrom(w, i, j, ai + 1)
  }

  function SlotFrom(w: World, i: nat, j: nat): seq<Touch>
    requires i < |w.slots| && j <= |w.slots|
    decreases |w.slots| - j
  {
    if j == |w.slots| then []
    else (if w.slots[j].active then PairFrom(w, i, j, 0) else []) + SlotFrom(w, i, j + 1)
  }

  function TouchesFrom(w: World, i: nat): seq<Touch>
    requires i <= |w.slots|
    decreases |w.slots| - i
  {
    if i == |w.slots| then []
    else (if w.slots[i].active then SlotFrom(w, i, i + 1) else []) + TouchesFrom(w, i + 1)
  }

  function Touches(w: World): seq<Touch> {
    TouchesFrom(w, 0)
  }

  function ContactsOf(w: World, ts: seq<Touch>): (cs: seq<Contact>)
    requires |w.slots| <= WORLD_LIMIT && forall t :: t in ts ==> Touching(w, t)
    ensures |cs| == |ts|
  {
    seq(|ts|, k requires 0 <= k < |ts| => ContactOf(w, ts[k]))
  }

  // ------------------------------------------------------------ what it costs

  function PairCost(w: World, i: nat, j: nat): nat
    requires i < |w.slots| && j < |w.slots|
  {
    |RegionsAt(w, i)| * |RegionsAt(w, j)|
  }

  /** Region comparisons plus slot visits of the inner loop, from partner j on. */
  function SlotCost(w: World, i: nat, j: nat): nat
    requires i < |w.slots| && j <= |w.slots|
    decreases |w.slots| - j
  {
    if j == |w.slots| then 0
    else 1 + (if w.slots[j].active then PairCost(w, i, j) else 0) + SlotCost(w, i, j + 1)
  }

  function CostFrom(w: World, i: nat): nat
    requires i <= |w.slots|
    decreases |w.slots| - i
  {
    if i == |w.slots| then 0
    else 1 + (if w.slots[i].active then SlotCost(w, i, i + 1) else 0) + CostFrom(w, i + 1)
  }

  // The same cost without loops, from sums over the live slots.

  /** How many regions a live slot brings into the query. */
  function LiveRegions(w: World, i: nat): nat
    requires i < |w.slots|
  {
    if w.slots[i].active then |RegionsAt(w, i)| else 0
  }

  function RegionSum(w: World, i: nat): nat
    requires i <= |w.slots|
    decreases |w.slots| - i
  {
    if i == |w.slots| then 0 else LiveRegions(w, i) + RegionSum(w, i + 1)
  }

  function SquareSum(w: World, i: nat): nat
    requires i <= |w.slots|
    decreases |w.slots| - i
  {
    if i == |w.slots| then 0 else LiveRegions(w, i) * LiveRegions(w, i) + SquareSum(w, i + 1)
  }

  /** For every live slot, the slots after it. */
  function LaterSlotSum(w: World, i: nat): nat
    requires i <= |w.slots|
    decreases |w.slots| - i
  {
    if i == |w.slots| then 0 else (if w.slots[i].active then |w.slots| - 1 - i else 0) + LaterSlotSum(w, i + 1)
  }

  lemma {:induction false} SlotCostIsClosedForm(w: World, i: nat, j: nat)
    requires i < |w.slots| && j <= |w.slots|
    ensures SlotCost(w, i, j) == |w.slots| - j + |RegionsAt(w, i)| * RegionSum(w, j)
    decreases |w.slots| - j
  {
    if j < |w.slots| {
      hide RegionsAt;
      SlotCostIsClosedForm(w, i, j + 1);
      Distribute(|RegionsAt(w, i)|, LiveRegions(w, j), RegionSum(w, j + 1));
    }
  }

  lemma Distribute(a: int, b: int, c: int)
    ensures a * (b + c) == a * b + a * c
  {
  }

  lemma SquareOfSum(r: int, rest: int)
    ensures (r + rest) * (r + rest) == r * r + 2 * (r * rest) + rest * rest
  {
  }

  /** The cost in closed form. With C slots of which live slot i has r(i) regions, R the sum and S the sum of squares of
      the r(i): every slot and every later partner of a live slot is visited once, and of the R * R pairs of regions
      those within one entity do not count and the others count in one order only. */
  lemma {:induction false} CostIsClosedForm(w: World, i: nat)
    requires i <= |w.slots|
    ensures 2 * CostFrom(w, i)
         == 2 * (|w.slots| - i) + 2 * LaterSlotSum(w, i) + RegionSum(w, i) * RegionSum(w, i) - SquareSum(w, i)
    decreases |w.slots| - i
  {
    if i < |w.slots| {
      CostIsClosedForm(w, i + 1);
      SlotCostIsClosedForm(w, i, i + 1);
      SquareOfSum(LiveRegions(w, i), RegionSum(w, i + 1));
    }
  }

  datatype Budget = Unlimited | Limited(left: u32)

  predicate Affords(b: Budget, cost: nat) {
    b.Limited? ==> cost <= b.left
  }

  function Spend(b: Budget, cost: nat): Budget
    requires Affords(b, cost)
  {
    match b case Unlimited => b case Limited(left) => Limited(left - cost)
  }

  /** What is left of a budget when the work stops at the first unit past `allowance` or past the budget. */
  function Drain(b: Budget, allowance: nat): Budget {
    match b case Unlimited => b case Limited(left) => Limited(if left < allowance then 0 else left - allowance)
  }

  // --------------------------------------------------------- exact and ordered

  predicate Before(a: Touch, b: Touch) {
    || a.i < b.i
    || (a.i == b.i && a.j < b.j)
    || (a.i == b.i && a.j == b.j && a.ai < b.ai)
    || (a.i == b.i && a.j == b.j && a.ai == b.ai && a.bi < b.bi)
  }

  ghost predicate Ordered(ts: seq<Touch>) {
    forall k, l :: 0 <= k < l < |ts| ==> Before(ts[k], ts[l])
  }

  lemma OrderedConcat(a: seq<Touch>, b: seq<Touch>)
    requires Ordered(a) && Ordered(b) && forall s, t :: s in a && t in b ==> Before(s, t)
    ensures Ordered(a + b)
  {
    forall k, l | 0 <= k < l < |a + b| ensures Before((a + b)[k], (a + b)[l]) {
      if k < |a| <= l { assert a[k] in a && b[l - |a|] in b; }
    }
  }

  lemma {:induction false} RowExact(w: World, i: nat, j: nat, ai: nat, bi: nat)
    requires i < |w.slots| && j < |w.slots| && bi <= |RegionsAt(w, j)|
    ensures Ordered(RowFrom(w, i, j, ai, bi))
    ensures forall t: Touch :: t in RowFrom(w, i, j, ai, bi)
              <==> t.i == i && t.j == j && t.ai == ai && bi <= t.bi && Touching(w, t)
    decreases |RegionsAt(w, j)| - bi
  {
    hide Overlap;
    if bi < |RegionsAt(w, j)| {
      RowExact(w, i, j, ai, bi + 1);
      var t0 := Touch(i, j, ai, bi);
      OrderedConcat(if Touching(w, t0) then [t0] else [], RowFrom(w, i, j, ai, bi + 1));
    }
  }

  lemma {:induction false} PairExact(w: World, i: nat, j: nat, ai: nat)
    requires i < |w.slots| && j < |w.slots| && ai <= |RegionsAt(w, i)|
    ensures Ordered(PairFrom(w, i, j, ai))
    ensures forall t: Touch :: t in PairFrom(w, i, j, ai) <==> t.i == i && t.j == j && ai <= t.ai && Touching(w, t)
    decreases |RegionsAt(w, i)| - ai
  {
    hide Overlap, RowFrom;
    if ai < |RegionsAt(w, i)| {
      RowExact(w, i, j, ai, 0);
      PairExact(w, i, j, ai + 1);
      OrderedConcat(RowFrom(w, i, j, ai, 0), PairFrom(w, i, j, ai + 1));
    }
  }

  lemma {:induction false} SlotExact(w: World, i: nat, j: nat)
    requires i < j <= |w.slots| && w.slots[i].active
    ensures Ordered(SlotFrom(w, i, j))
    ensures forall t: Touch :: t in SlotFrom(w, i, j) <==> t.i == i && j <= t.j && Touching(w, t)
    decreases |w.slots| - j
  {
    hide Overlap, PairFrom;
    if j < |w.slots| {
      PairExact(w, i, j, 0);
      SlotExact(w, i, j + 1);
      OrderedConcat(if w.slots[j].active then PairFrom(w, i, j, 0) else [], SlotFrom(w, i, j + 1));
    }
  }

  /** The list holds exactly the touching pairs, each once, in (slot, slot, region, region) order. */
  lemma {:induction false} TouchesExact(w: World, i: nat)
    requires i <= |w.slots|
    ensures Ordered(TouchesFrom(w, i))
    ensures forall t: Touch :: t in TouchesFrom(w, i) <==> i <= t.i && Touching(w, t)
    decreases |w.slots| - i
  {
    hide Overlap, SlotFrom;
    if i < |w.slots| {
      if w.slots[i].active { SlotExact(w, i, i + 1); }
      TouchesExact(w, i + 1);
      OrderedConcat(if w.slots[i].active then SlotFrom(w, i, i + 1) else [], TouchesFrom(w, i + 1));
    }
  }

  // --------------------------------------------------------------- reflection

  /** The entity seen in a mirror at x = 0: negated position, toggled mirror flag. */
  function Reflected(v: EntityValue): EntityValue
    requires v.x > -0x8000_0000 && v.flags < U32_MAX
  {
    v.(x := -v.x, flags := if MirrorsX(v) then v.flags - 1 else v.flags + 1)
  }

  function ReflectedSlot(s: Slot): Slot
    requires s.active ==> ValidValue(s.value)
  {
    if s.active then s.(value := Reflected(s.value)) else s
  }

  function ReflectedWorld(w: World): World
    requires forall i :: 0 <= i < |w.slots| && w.slots[i].active ==> ValidValue(w.slots[i].value)
  {
    w.(slots := seq(|w.slots|, i requires 0 <= i < |w.slots| => ReflectedSlot(w.slots[i])))
  }

  lemma ReflectionKeepsOverlap(a: EntityValue, ar: EntityRegion, b: EntityValue, br: EntityRegion)
    requires ValidValue(a) && ValidValue(b)
    ensures Overlap(Reflected(a), ar, Reflected(b), br) <==> Overlap(a, ar, b, br)
  {
    assert MirrorsX(Reflected(a)) <==> !MirrorsX(a);
    assert MirrorsX(Reflected(b)) <==> !MirrorsX(b);
  }

  lemma ReflectionKeepsTouching(w: World, t: Touch)
    requires forall i :: 0 <= i < |w.slots| && w.slots[i].active ==> ValidValue(w.slots[i].value)
    ensures Touching(ReflectedWorld(w), t) <==> Touching(w, t)
  {
    hide ValidValue, Overlap;
    var w' := ReflectedWorld(w);
    if t.i < t.j < |w.slots| && w.slots[t.i].active && w.slots[t.j].active {
      assert RegionsAt(w', t.i) == RegionsAt(w, t.i) && RegionsAt(w', t.j) == RegionsAt(w, t.j);
      if t.ai < |RegionsAt(w, t.i)| && t.bi < |RegionsAt(w, t.j)| {
        ReflectionKeepsOverlap(w.slots[t.i].value, RegionsAt(w, t.i)[t.ai], w.slots[t.j].value, RegionsAt(w, t.j)[t.bi]);
      }
    }
  }

  lemma NonemptyHasMember(b: seq<Touch>)
    ensures b == [] || exists t :: t in b
  {
    if b != [] { assert b[0] in b; }
  }

  lemma {:induction false} OrderedListsAgree(a: seq<Touch>, b: seq<Touch>)
    requires Ordered(a) && Ordered(b) && forall t :: t in a <==> t in b
    ensures a == b
    decreases |a|
  {
    if a == [] {
      NonemptyHasMember(b);
    } else {
      assert a[0] in a && a[0] in b && b != [];
      assert b[0] in b && b[0] in a;
      assert a[0] == b[0] by {
        var k :| 0 <= k < |b| && b[k] == a[0];
        var l :| 0 <= l < |a| && a[l] == b[0];
      }
      forall t ensures t in a[1..] <==> t in b[1..] {
        assert t in a[1..] <==> t in a && t != a[0];
        assert t in b[1..] <==> t in b && t != b[0];
      }
      OrderedListsAgree(a[1..], b[1..]);
    }
  }

  /** Reflecting every entity and toggling its mirror flag reports the same contacts in the same order. */
  lemma ReflectionKeepsContacts(w: World)
    requires WellFormed(w)
    ensures forall i :: 0 <= i < |w.slots| && w.slots[i].active ==> ValidValue(w.slots[i].value)
    ensures var w' := ReflectedWorld(w);
            && (forall t :: t in Touches(w) ==> Touching(w, t)) && (forall t :: t in Touches(w') ==> Touching(w', t))
            && ContactsOf(w', Touches(w')) == ContactsOf(w, Touches(w))
  {
    assert forall i :: 0 <= i < |w.slots| && w.slots[i].active ==> ValidSlot(w.types, w.slots[i]);
    var w' := ReflectedWorld(w);
    TouchesExact(w, 0);
    TouchesExact(w', 0);
    forall t: Touch ensures Touching(w', t) <==> Touching(w, t) { ReflectionKeepsTouching(w, t); }
    OrderedListsAgree(Touches(w'), Touches(w));
    hide WellFormed, Overlap, TouchesFrom;
    forall k | 0 <= k < |Touches(w)|
      ensures ContactsOf(w', Touches(w'))[k] == ContactsOf(w, Touches(w))[k] {
      var t := Touches(w)[k];
      assert t in Touches(w) && t in Touches(w');
    }
  }

  // ------------------------------------------------------------------ queries

  /** How far a query's accounting has come. */
  datatype Account = Account(comparisons: nat, budget: Budget)

  predicate Covers(a: Account, cost: nat) {
    a.comparisons + cost <= MAX_COMPARISONS && Affords(a.budget, cost)
  }

  function Charged(a: Account, cost: nat): Account
    requires Affords(a.budget, cost)
  {
    Account(a.comparisons + cost, Spend(a.budget, cost))
  }

  /** What one pass over some stretch of work does to the accounts: only the first pass charges. */
  ghost predicate Accounted(pass: nat, cost: nat, before: Account, after: Account, ok: bool)
    requires before.comparisons <= MAX_COMPARISONS
  {
    if pass == 0 then
      if Covers(before, cost) then ok && after == Charged(before, cost)
      else !ok && after.budget == Drain(before.budget, MAX_COMPARISONS - before.comparisons)
    else ok && after == before
  }

  /** Stretches of work in sequence: the second is reached only if the first was paid for. */
  lemma AccountsChain(pass: nat, cost1: nat, cost2: nat, a: Account, b: Account, c: Account, ok1: bool, ok2: bool)
    requires a.comparisons <= MAX_COMPARISONS
    requires Accounted(pass, cost1, a, b, ok1)
    ensures ok1 ==> b.comparisons <= MAX_COMPARISONS
    ensures ok1 && Accounted(pass, cost2, b, c, ok2) ==> Accounted(pass, cost1 + cost2, a, c, ok2)
    ensures ok1 && Accounted(pass, cost2, b, c, ok2) && ok2 ==> c.comparisons <= MAX_COMPARISONS
  {
  }

  lemma AccountsStart(pass: nat, a: Account)
    requires a.comparisons <= MAX_COMPARISONS
    ensures Accounted(pass, 0, a, a, true)
  {
  }

  /** Work that could not be paid for cannot be paid for with more to come. */
  lemma AccountsFail(pass: nat, cost: nat, more: nat, a: Account, b: Account)
    requires a.comparisons <= MAX_COMPARISONS && Accounted(pass, cost, a, b, false)
    ensures Accounted(pass, cost + more, a, b, false)
  {
  }

  /** One unit of work, charged on the first pass only. */
  method Charge(pass: nat, a: Account) returns (ok: bool, b: Account)
    requires a.comparisons <= MAX_COMPARISONS
    ensures Accounted(pass, 1, a, b, ok)
  {
    ok, b := true, a;
    if pass == 0 { ok, b := Work(a); }
  }

  method Work(a: Account) returns (ok: bool, b: Account)
    requires a.comparisons <= MAX_COMPARISONS
    ensures Accounted(0, 1, a, b, ok)
  {
    b := a.(comparisons := a.comparisons + 1);
    if b.comparisons > MAX_COMPARISONS { return false, b; }
    match b.budget {
      case Unlimited =>
      case Limited(left) =>
        if left == 0 { return false, b; }
        b := b.(budget := Limited(left - 1));
    }
    return true, b;
  }

  /** The touches found, turned into contacts and written from position n of the output on. */
  ghost predicate Reported(pass: nat, w: World, ts: seq<Touch>, before: seq<Contact>, after: seq<Contact>, n: nat)
    requires |w.slots| <= WORLD_LIMIT && forall t :: t in ts ==> Touching(w, t)
  {
    if pass == 0 then after == before
    else n + |ts| <= |before| && after == before[..n] + ContactsOf(w, ts) + before[n + |ts|..]
  }

  lemma ReportsStart(pass: nat, w: World, a: seq<Contact>, n: nat)
    requires |w.slots| <= WORLD_LIMIT && (pass != 0 ==> n <= |a|)
    ensures Reported(pass, w, [], a, a, n)
  {
    assert ContactsOf(w, []) == [];
  }

  lemma ReportsChain(pass: nat, w: World, ts1: seq<Touch>, ts2: seq<Touch>,
                     a: seq<Contact>, b: seq<Contact>, c: seq<Contact>, n: nat)
    requires |w.slots| <= WORLD_LIMIT
    requires forall t :: t in ts1 ==> Touching(w, t)
    requires forall t :: t in ts2 ==> Touching(w, t)
    requires Reported(pass, w, ts1, a, b, n) && Reported(pass, w, ts2, b, c, n + |ts1|)
    ensures forall t :: t in ts1 + ts2 ==> Touching(w, t)
    ensures Reported(pass, w, ts1 + ts2, a, c, n)
  {
    hide Touching, ContactOf;
    if pass != 0 {
      assert ContactsOf(w, ts1 + ts2) == ContactsOf(w, ts1) + ContactsOf(w, ts2);
      assert c == a[..n] + (ContactsOf(w, ts1) + ContactsOf(w, ts2)) + a[n + |ts1 + ts2|..];
    }
  }

  /** Writing one more contact behind those already reported. */
  lemma ReportOne(pass: nat, w: World, done: seq<Touch>, t: Touch, a: seq<Contact>, b: seq<Contact>, n: nat)
    requires |w.slots| <= WORLD_LIMIT && (forall u :: u in done ==> Touching(w, u)) && Touching(w, t)
    requires Reported(pass, w, done, a, b, n) && (pass != 0 ==> n + |done| < |b|)
    ensures Reported(pass, w, done + [t], a, if pass == 0 then b else b[n + |done| := ContactOf(w, t)], n)
  {
    hide Touching, ContactOf;
    if pass != 0 {
      var c := b[n + |done| := ContactOf(w, t)];
      assert ContactsOf(w, [t]) == [ContactOf(w, t)];
      assert c == b[..n + |done|] + [ContactOf(w, t)] + b[n + |done| + 1..];
      ReportsChain(pass, w, done, [t], a, b, c, n);
    }
  }

  lemma RowUnfolds(w: World, i: nat, j: nat, ai: nat, bi: nat)
    requires i < |w.slots| && j < |w.slots| && bi < |RegionsAt(w, j)|
    ensures RowFrom(w, i, j, ai, bi)
         == (if Touching(w, Touch(i, j, ai, bi)) then [Touch(i, j, ai, bi)] else []) + RowFrom(w, i, j, ai, bi + 1)
  {
  }

  /** Between two live entities, touching is overlapping, and the contact reported names both in slot order. */
  lemma WhenTouching(w: World, i: nat, j: nat, ai: nat, bi: nat)
    requires i < j < |w.slots| <= WORLD_LIMIT && w.slots[i].active && w.slots[j].active
    requires ai < |RegionsAt(w, i)| && bi < |RegionsAt(w, j)|
    ensures var t, a, b := Touch(i, j, ai, bi), RegionsAt(w, i)[ai], RegionsAt(w, j)[bi];
            && (Touching(w, t) <==> Overlap(w.slots[i].value, a, w.slots[j].value, b))
            && (Touching(w, t) ==> ContactOf(w, t) == Contact(MakeHandle(i, w.slots[i].generation),
                  MakeHandle(j, w.slots[j].generation), a.id, b.id, a.role, b.role))
  {
    hide Overlap, RegionsAt;
  }

  /** One row: a region of one entity against the regions of another. */
  method RowPass(pass: nat, w: World, i: nat, j: nat, ai: nat, output: array<Contact>, n: nat, account: Account)
    returns (ok: bool, n': nat, account': Account)
    requires i < j < |w.slots| <= WORLD_LIMIT && w.slots[i].active && w.slots[j].active
    requires account.comparisons <= MAX_COMPARISONS
    requires ai < |RegionsAt(w, i)|
    requires pass != 0 ==> n + |RowFrom(w, i, j, ai, 0)| <= output.Length
    modifies output
    ensures Accounted(pass, |RegionsAt(w, j)|, account, account', ok)
    ensures var ts := RowFrom(w, i, j, ai, 0);
            && (forall t :: t in ts ==> Touching(w, t))
            && (ok ==> n' == n + |ts| && Reported(pass, w, ts, old(output[..]), output[..], n))
    ensures pass == 0 ==> output[..] == old(output[..])
  {
    hide Overlap, RegionsAt, RowFrom, Touching, ContactOf, Accounted, Reported;
    AccountsStart(pass, account);
    RowExact(w, i, j, ai, 0);
    n', account', ok := n, account, true;
    var ra, rb := RegionsAt(w, i), RegionsAt(w, j);
    ghost var done: seq<Touch> := [];
    ReportsStart(pass, w, output[..], n);
    for bi := 0 to |rb|
      invariant ok && n' == n + |done| && done + RowFrom(w, i, j, ai, bi) == RowFrom(w, i, j, ai, 0)
      invariant forall t :: t in done ==> Touching(w, t)
      invariant Reported(pass, w, done, old(output[..]), output[..], n)
      invariant account'.comparisons <= MAX_COMPARISONS && Accounted(pass, bi, account, account', true)
      invariant pass == 0 ==> output[..] == old(output[..])
    {
      RowUnfolds(w, i, j, ai, bi);
      ghost var paid := account';
      ok, account' := Charge(pass, account');
      AccountsChain(pass, bi, 1, account, paid, account', true, ok);
      if !ok {
        AccountsFail(pass, bi + 1, |rb| - bi - 1, account, account');
        return;
      }
      WhenTouching(w, i, j, ai, bi);
      if Overlap(w.slots[i].value, ra[ai], w.slots[j].value, rb[bi]) {
        ReportOne(pass, w, done, Touch(i, j, ai, bi), old(output[..]), output[..], n);
        if pass != 0 {
          output[n'] := Contact(MakeHandle(i, w.slots[i].generation), MakeHandle(j, w.slots[j].generation),
                                ra[ai].id, rb[bi].id, ra[ai].role, rb[bi].role);
        }
        done := done + [Touch(i, j, ai, bi)];
        n' := n' + 1;
      }
    }
    assert RowFrom(w, i, j, ai, |rb|) == [] by { RowEnds(w, i, j, ai); }
    assert done == RowFrom(w, i, j, ai, 0);
  }

  lemma RowEnds(w: World, i: nat, j: nat, ai: nat)
    requires i < |w.slots| && j < |w.slots|
    ensures RowFrom(w, i, j, ai, |RegionsAt(w, j)|) == []
  {
  }

  method PairPass(pass: nat, w: World, i: nat, j: nat, output: array<Contact>, n: nat, account: Account)
    returns (ok: bool, n': nat, account': Account)
    requires i < j < |w.slots| <= WORLD_LIMIT && w.slots[i].active && w.slots[j].active
    requires account.comparisons <= MAX_COMPARISONS
    requires pass != 0 ==> n + |PairFrom(w, i, j, 0)| <= output.Length
    modifies output
    ensures Accounted(pass, PairCost(w, i, j), account, account', ok)
    ensures var ts := PairFrom(w, i, j, 0);
            && (forall t :: t in ts ==> Touching(w, t))
            && (ok ==> n' == n + |ts| && Reported(pass, w, ts, old(output[..]), output[..], n))
    ensures pass == 0 ==> output[..] == old(output[..])
  {
    hide RegionsAt, RowFrom, Touching, ContactOf, Accounted, Reported;
    AccountsStart(pass, account);
    PairExact(w, i, j, 0);
    n', account', ok := n, account, true;
    var na, nb := |RegionsAt(w, i)|, |RegionsAt(w, j)|;
    ghost var done: seq<Touch> := [];
    ReportsStart(pass, w, output[..], n);
    for ai := 0 to na
      invariant ok && n' == n + |done| && done + PairFrom(w, i, j, ai) == PairFrom(w, i, j, 0)
      invariant forall t :: t in done ==> Touching(w, t)
      invariant Reported(pass, w, done, old(output[..]), output[..], n)
      invariant account'.comparisons <= MAX_COMPARISONS && Accounted(pass, ai * nb, account, account', true)
      invariant pass == 0 ==> output[..] == old(output[..])
    {
      ghost var was, paid, row := output[..], account', RowFrom(w, i, j, ai, 0);
      assert PairFrom(w, i, j, ai) == row + PairFrom(w, i, j, ai + 1);
      ok, n', account' := RowPass(pass, w, i, j, ai, output, n', account');
      assert (ai + 1) * nb == ai * nb + nb;
      AccountsChain(pass, ai * nb, nb, account, paid, account', true, ok);
      if !ok {
        assert na * nb == (ai + 1) * nb + (na - ai - 1) * nb;
        AccountsFail(pass, (ai + 1) * nb, (na - ai - 1) * nb, account, account');
        return;
      }
      ReportsChain(pass, w, done, row, old(output[..]), was, output[..], n);
      done := done + row;
    }
    assert done == PairFrom(w, i, j, 0);
  }

  /** What one turn of the inner loop adds, in touches and in cost. */
  lemma SlotTurn(w: World, i: nat, j: nat, done: seq<Touch>)
    requires i < |w.slots| && j < |w.slots|
    ensures var pair := if w.slots[j].active then PairFrom(w, i, j, 0) else [];
            && SlotFrom(w, i, j) == pair + SlotFrom(w, i, j + 1)
            && done + SlotFrom(w, i, j) == (done + pair) + SlotFrom(w, i, j + 1)
    ensures SlotCost(w, i, j)
         == 1 + (if w.slots[j].active then PairCost(w, i, j) else 0) + SlotCost(w, i, j + 1)
  {
    hide PairFrom, PairCost;
  }

  lemma SlotsEnd(w: World, i: nat)
    requires i < |w.slots|
    ensures SlotFrom(w, i, |w.slots|) == [] && SlotCost(w, i, |w.slots|) == 0
  {
  }

  /** The inner loop: one live entity against the slots after it. */
  method SlotPass(pass: nat, w: World, i: nat, output: array<Contact>, n: nat, account: Account)
    returns (ok: bool, n': nat, account': Account)
    requires i < |w.slots| <= WORLD_LIMIT && w.slots[i].active
    requires account.comparisons <= MAX_COMPARISONS
    requires pass != 0 ==> n + |SlotFrom(w, i, i + 1)| <= output.Length
    modifies output
    ensures Accounted(pass, SlotCost(w, i, i + 1), account, account', ok)
    ensures var ts := SlotFrom(w, i, i + 1);
            && (forall t :: t in ts ==> Touching(w, t))
            && (ok ==> n' == n + |ts| && Reported(pass, w, ts, old(output[..]), output[..], n))
    ensures pass == 0 ==> output[..] == old(output[..])
  {
    hide SlotFrom, SlotCost, PairCost, PairFrom, Touching, ContactOf, Accounted, Reported;
    AccountsStart(pass, account);
    SlotExact(w, i, i + 1);
    n', account', ok := n, account, true;
    ghost var done: seq<Touch>, spent: nat := [], 0;
    ReportsStart(pass, w, output[..], n);
    for j := i + 1 to |w.slots|
      invariant ok && n' == n + |done| && done + SlotFrom(w, i, j) == SlotFrom(w, i, i + 1)
      invariant spent + SlotCost(w, i, j) == SlotCost(w, i, i + 1)
      invariant forall t :: t in done ==> Touching(w, t)
      invariant Reported(pass, w, done, old(output[..]), output[..], n)
      invariant account'.comparisons <= MAX_COMPARISONS && Accounted(pass, spent, account, account', true)
      invariant pass == 0 ==> output[..] == old(output[..])
    {
      SlotTurn(w, i, j, done);
      ghost var paid := account';
      ok, account' := Charge(pass, account');
      AccountsChain(pass, spent, 1, account, paid, account', true, ok);
      if !ok {
        AccountsFail(pass, spent + 1, SlotCost(w, i, j) - 1, account, account');
        return;
      }
      spent := spent + 1;
      if !w.slots[j].active {
        assert done + [] == done;
        continue;
      }
      ghost var was, pair := output[..], PairFrom(w, i, j, 0);
      ghost var cost := PairCost(w, i, j);
      paid := account';
      ok, n', account' := PairPass(pass, w, i, j, output, n', account');
      AccountsChain(pass, spent, cost, account, paid, account', true, ok);
      if !ok {
        AccountsFail(pass, spent + cost, SlotCost(w, i, j + 1), account, account');
        return;
      }
      ReportsChain(pass, w, done, pair, old(output[..]), was, output[..], n);
      done, spent := done + pair, spent + cost;
    }
    SlotsEnd(w, i);
    assert done == SlotFrom(w, i, i + 1);
  }

  /** One pass over the whole world. */
  method WorldPass(pass: nat, w: World, output: array<Contact>, account: Account)
    returns (ok: bool, n: nat, account': Account)
    requires |w.slots| <= WORLD_LIMIT && account.comparisons <= MAX_COMPARISONS
    requires pass != 0 ==> |Touches(w)| <= output.Length
    modifies output
    ensures Accounted(pass, CostFrom(w, 0), account, account', ok)
    ensures (forall t :: t in Touches(w) ==> Touching(w, t))
    ensures ok ==> n == |Touches(w)| && Reported(pass, w, Touches(w), old(output[..]), output[..], 0)
    ensures pass == 0 ==> output[..] == old(output[..])
  {
    hide SlotFrom, SlotCost, Touching, ContactOf, Accounted, Reported;
    AccountsStart(pass, account);
    TouchesExact(w, 0);
    n, account', ok := 0, account, true;
    ghost var done: seq<Touch>, spent: nat := [], 0;
    ReportsStart(pass, w, output[..], 0);
    for i := 0 to |w.slots|
      invariant ok && n == |done| && done + TouchesFrom(w, i) == Touches(w)
      invariant spent + CostFrom(w, i) == CostFrom(w, 0)
      invariant forall t :: t in done ==> Touching(w, t)
      invariant Reported(pass, w, done, old(output[..]), output[..], 0)
      invariant account'.comparisons <= MAX_COMPARISONS && Accounted(pass, spent, account, account', true)
      invariant pass == 0 ==> output[..] == old(output[..])
    {
      ghost var paid := account';
      ok, account' := Charge(pass, account');
      AccountsChain(pass, spent, 1, account, paid, account', true, ok);
      if !ok {
        AccountsFail(pass, spent + 1, CostFrom(w, i) - 1, account, account');
        return;
      }
      spent := spent + 1;
      if !w.slots[i].active { continue; }
      ghost var was, slot, cost := output[..], SlotFrom(w, i, i + 1), SlotCost(w, i, i + 1);
      paid := account';
      assert TouchesFrom(w, i) == slot + TouchesFrom(w, i + 1);
      ok, n, account' := SlotPass(pass, w, i, output, n, account');
      AccountsChain(pass, spent, cost, account, paid, account', true, ok);
      if !ok {
        AccountsFail(pass, spent + cost, CostFrom(w, i + 1), account, account');
        return;
      }
      ReportsChain(pass, w, done, slot, old(output[..]), was, output[..], 0);
      done, spent := done + slot, spent + cost;
    }
    assert done == Touches(w);
  }

  datatype QueryResult = Refused | Required(count: nat)

  /** What a query answers, what it leaves of the budget, and whether it writes. */
  function Query(w: World, hasOutput: bool, capacity: nat, budget: Budget): (QueryResult, Budget, bool)
    requires |w.slots| <= WORLD_LIMIT
  {
    var cost, found := CostFrom(w, 0), |Touches(w)|;
    if w.types == [] || (!hasOutput && capacity > 0) then (Refused, budget, false)
    else if cost > MAX_COMPARISONS || !Affords(budget, cost) then (Refused, Drain(budget, MAX_COMPARISONS), false)
    else if !hasOutput || capacity < found || found == 0 then (Required(found), Spend(budget, cost), false)
    else if !Affords(budget, 2 * cost) then (Refused, Drain(budget, 2 * cost), false)
    else (Required(found), Spend(budget, 2 * cost), true)
  }

  /** The query: all or nothing. It writes the contacts in order when they fit and both passes are paid for,
      and otherwise leaves the output exactly as it was. `hasOutput` is whether the caller passed a buffer. */
  method Contacts(world: EntityWorld, output: array<Contact>, hasOutput: bool, capacity: nat, budget: Budget)
    returns (result: QueryResult, budget': Budget)
    requires world.Valid() && (hasOutput ==> capacity <= output.Length)
    requires (output as object) != world && (output as object) != world.slots
    modifies output
    ensures |world.Abs().slots| <= WORLD_LIMIT && forall t :: t in Touches(world.Abs()) ==> Touching(world.Abs(), t)
    ensures var w := world.Abs();
            var (r, left, writes) := Query(w, hasOutput, capacity, budget);
            && result == r && budget' == left
            && (writes ==> |Touches(w)| <= output.Length)
            && output[..] == if writes then ContactsOf(w, Touches(w)) + old(output[..])[|Touches(w)|..]
                             else old(output[..])
  {
    hide WellFormed, Touches, CostFrom, ContactOf, Touching;
    var w := World(world.slots[..], world.count, world.tick, world.types, world.spawned);
    assert |w.slots| <= WORLD_LIMIT by { WorldFits(w); }
    TouchesExact(w, 0);
    assert Touches(w) == TouchesFrom(w, 0) by { TouchesStart(w); }
    result, budget' := Refused, budget;
    if world.types == [] || (!hasOutput && capacity > 0) { return; }
    var ok, found, account := WorldPass(0, w, output, Account(0, budget));
    budget' := account.budget;
    if !ok { return; }
    if !hasOutput || capacity < found || found == 0 { return Required(found), budget'; }
    match budget' {
      case Unlimited =>
      case Limited(left) =>
        if left < account.comparisons { return Refused, Limited(0); }
        budget' := Limited(left - account.comparisons);
    }
    ghost var was := output[..];
    var _, _, _ := WorldPass(1, w, output, account);
    result := Required(found);
  }

  lemma WorldFits(w: World)
    requires WellFormed(w)
    ensures |w.slots| <= WORLD_LIMIT
  {
  }

  lemma TouchesStart(w: World)
    ensures Touches(w) == TouchesFrom(w, 0)
  {
  }
}
