/**
 The value-level model of the entity world: entity values, slots, types, and the
 functions that say what each public operation does to the world's state.
 The class in EntityWorld.dfy is proved against these functions; the laws about
 whole runs are lemmas about them.
 */
module EntityModel {
  import opened Common

  const WORLD_LIMIT := 4096
  const COORD_LIMIT := 1073741823
  const REGIONS_MAX := 16
  const ANIMATIONS_MAX := 32
  const ANIMATION_TICK_MAX := 9007199254740991
  const ROTATION_LIMIT := 92160000
  const U32_MAX := 0xFFFF_FFFF
  const U64_MAX := 0xFFFF_FFFF_FFFF_FFFF

  type u32 = x: int | 0 <= x <= 0xFFFF_FFFF
  type i32 = x: int | -0x8000_0000 <= x <= 0x7FFF_FFFF
  type u64 = x: int | 0 <= x <= 0xFFFF_FFFF_FFFF_FFFF

  const FLAG_KNOWN: int := 63

  /** A generation in the high half, a one-based slot index in the low half; 0 is "none". */
  type Handle = u64

  datatype EntityValue = EntityValue(
    typeId: u32, x: i32, y: i32, vx: i32, vy: i32, flags: u32, animationTick: u64,
    scaleX: i32, scaleY: i32, animationRate: i32, animationSubtick: u32, animationId: u32,
    offsetX: i32, offsetY: i32, tint: u32, layer: u32, rotation: i32)

  const ZERO_VALUE: EntityValue := EntityValue(0, 0, 0, 0, 0, 0, 0, 0, 0, 0, 0, 0, 0, 0, 0, 0, 0)

  datatype Slot = Slot(generation: u32, active: bool, value: EntityValue)

  const FRESH_SLOT: Slot := Slot(0, false, ZERO_VALUE)

  datatype Role = Body | Sensor | Hitbox | Hurtbox | Solid

  datatype EntityRegion = EntityRegion(
    id: u32, role: Role, layer: bv32, mask: bv32, x: i32, y: i32, width: i32, height: i32)

  datatype EntityType = EntityType(id: u32, animationCount: u32, regions: seq<EntityRegion>)

  /** Everything a snapshot speaks about, plus the bound types and the "spawned" latch. */
  datatype World = World(slots: seq<Slot>, count: u32, tick: u64, types: seq<EntityType>, spawned: bool)

  // ---------------------------------------------------------------- values

  // Bits of the flags word, least significant first.
  predicate MirrorsX(v: EntityValue) { v.flags % 2 == 1 }
  predicate AnimationPaused(v: EntityValue) { v.flags / 2 % 2 == 1 }
  predicate ManualMotion(v: EntityValue) { v.flags / 4 % 2 == 1 }
  predicate TintOverride(v: EntityValue) { v.flags / 16 % 2 == 1 }
  predicate LayerOverride(v: EntityValue) { v.flags / 32 % 2 == 1 }

  predicate Within(n: int, limit: int) {
    -limit <= n <= limit
  }

  predicate ValidValue(v: EntityValue) {
    && v.flags <= FLAG_KNOWN
    && v.animationTick <= ANIMATION_TICK_MAX
    && v.typeId != 0
    && Within(v.x, COORD_LIMIT) && Within(v.y, COORD_LIMIT)
    && Within(v.vx, COORD_LIMIT) && Within(v.vy, COORD_LIMIT)
    && Within(v.scaleX, 65536) && Within(v.scaleY, 65536)
    && 0 <= v.animationRate <= 65536
    && v.animationSubtick < 256
    && Within(v.offsetX, COORD_LIMIT) && Within(v.offsetY, COORD_LIMIT)
    && (TintOverride(v) || v.tint == 0)
    && (if LayerOverride(v) then v.layer <= 1 else v.layer == 0)
    && Within(v.rotation, ROTATION_LIMIT)
  }

  /** The position of the type named `id`, or -1. */
  function TypeIndex(types: seq<EntityType>, id: u32): (k: int)
    ensures -1 <= k < |types|
    ensures k >= 0 ==> types[k].id == id
    ensures k < 0 ==> forall i :: 0 <= i < |types| ==> types[i].id != id
  {
    if types == [] then -1
    else if types[|types| - 1].id == id then |types| - 1
    else TypeIndex(types[..|types| - 1], id)
  }

  predicate ValidWorldValue(types: seq<EntityType>, v: EntityValue) {
    && ValidValue(v)
    && if types == [] then v.animationId == 0
       else var k := TypeIndex(types, v.typeId);
            k >= 0 && v.animationId <= types[k].animationCount
  }

  // ----------------------------------------------------------------- types

  predicate ValidRegion(r: EntityRegion) {
    && r.id != 0
    && 0 < r.width <= COORD_LIMIT && 0 < r.height <= COORD_LIMIT
    && Within(r.x, COORD_LIMIT) && Within(r.y, COORD_LIMIT)
  }

  predicate ValidType(t: EntityType) {
    && t.id != 0
    && |t.regions| <= REGIONS_MAX
    && t.animationCount <= ANIMATIONS_MAX
    && (forall j :: 0 <= j < |t.regions| ==> ValidRegion(t.regions[j]))
    && (forall j, k :: 0 <= k < j < |t.regions| ==> t.regions[k].id != t.regions[j].id)
  }

  predicate DistinctIds(types: seq<EntityType>) {
    forall i, j :: 0 <= j < i < |types| ==> types[j].id != types[i].id
  }

  predicate AcceptableTypes(types: seq<EntityType>) {
    && 0 < |types| <= WORLD_LIMIT
    && (forall i :: 0 <= i < |types| ==> ValidType(types[i]))
    && DistinctIds(types)
  }

  predicate SortedTypes(types: seq<EntityType>) {
    forall i, j :: 0 <= i < j < |types| ==> types[i].id < types[j].id
  }

  predicate HasSolids(types: seq<EntityType>) {
    exists i, j :: 0 <= i < |types| && 0 <= j < |types[i].regions| && types[i].regions[j].role == Solid
  }

  // --------------------------------------------------------------- handles

  function MakeHandle(i: nat, generation: u32): (h: Handle)
    requires i < WORLD_LIMIT
    ensures h % TWO32 == i + 1 && h / TWO32 == generation && h != 0
  {
    generation * TWO32 + i + 1
  }

  /** The slot a handle resolves to, or -1: the slot must be active and of the handle's generation. */
  function SlotOf(slots: seq<Slot>, h: Handle): (i: int)
    ensures -1 <= i < |slots|
  {
    var index := h % TWO32;
    if index == 0 || index > |slots| then -1
    else if slots[index - 1].active && slots[index - 1].generation == h / TWO32 then index - 1
    else -1
  }

  predicate Resolves(w: World, h: Handle) {
    SlotOf(w.slots, h) >= 0
  }

  /** Handles of the active slots among the first n, in slot order. */
  function LiveUpTo(slots: seq<Slot>, n: nat): (hs: seq<Handle>)
    requires n <= |slots| <= WORLD_LIMIT
    ensures |hs| <= n
  {
    if n == 0 then []
    else LiveUpTo(slots, n - 1) + (if slots[n - 1].active then [MakeHandle(n - 1, slots[n - 1].generation)] else [])
  }

  function Live(w: World): seq<Handle>
    requires |w.slots| <= WORLD_LIMIT
  {
    LiveUpTo(w.slots, |w.slots|)
  }

  // -------------------------------------------------------- well-formedness

  predicate ValidSlot(types: seq<EntityType>, s: Slot) {
    if s.active then s.generation >= 1 && ValidWorldValue(types, s.value) else s.value == ZERO_VALUE
  }

  predicate WellFormed(w: World) {
    && 0 < |w.slots| <= WORLD_LIMIT
    && |w.types| <= WORLD_LIMIT
    && (forall i :: 0 <= i < |w.slots| ==> ValidSlot(w.types, w.slots[i]))
    && w.count == |Live(w)|
    && SortedTypes(w.types)
    && (forall i :: 0 <= i < |w.types| ==> ValidType(w.types[i]))
    && (!w.spawned ==> forall i :: 0 <= i < |w.slots| ==> w.slots[i] == FRESH_SLOT)
  }

  // ------------------------------------------------------------ operations

  /** The first slot from i on that is free and not retired, or the capacity. */
  function FirstFree(slots: seq<Slot>, i: nat): (k: nat)
    requires i <= |slots|
    ensures i <= k <= |slots|
    ensures forall j :: i <= j < k ==> slots[j].active || slots[j].generation == U32_MAX
    ensures k < |slots| ==> !slots[k].active && slots[k].generation < U32_MAX
    decreases |slots| - i
  {
    if i == |slots| then i
    else if slots[i].active || slots[i].generation == U32_MAX then FirstFree(slots, i + 1)
    else i
  }

  function Spawn(w: World, v: EntityValue): (r: (World, Handle))
    requires |w.slots| <= WORLD_LIMIT && w.count < U32_MAX
  {
    if !ValidWorldValue(w.types, v) then (w, 0)
    else
      var k := FirstFree(w.slots, 0);
      if k == |w.slots| then (w, 0)
      else
        var g := w.slots[k].generation + 1;
        (w.(slots := w.slots[k := Slot(g, true, v)], count := w.count + 1, spawned := true), MakeHandle(k, g))
  }

  function Remove(w: World, h: Handle): (r: (World, bool))
    requires w.count > 0 || !Resolves(w, h)
  {
    var i := SlotOf(w.slots, h);
    if i < 0 then (w, false)
    else (w.(slots := w.slots[i := Slot(w.slots[i].generation, false, ZERO_VALUE)], count := w.count - 1), true)
  }

  function Write(w: World, h: Handle, v: EntityValue): (r: (World, bool)) {
    var i := SlotOf(w.slots, h);
    if i < 0 || !ValidWorldValue(w.types, v) || v.typeId != w.slots[i].value.typeId then (w, false)
    else (w.(slots := w.slots[i := w.slots[i].(value := v)]), true)
  }

  /** An entity's animation speed in 1/256 ticks; a stored zero inherits one tick per tick. */
  function EffectiveRate(v: EntityValue): int {
    if v.animationRate != 0 then v.animationRate else 256
  }

  /** The displacement a step would apply; manual motion suppresses it. */
  function StepX(v: EntityValue): int { if ManualMotion(v) then 0 else v.vx }
  function StepY(v: EntityValue): int { if ManualMotion(v) then 0 else v.vy }

  predicate CanMove(v: EntityValue) {
    && (AnimationPaused(v)
        || (v.animationSubtick + EffectiveRate(v)) / 256 <= ANIMATION_TICK_MAX - v.animationTick)
    && Within(v.x + StepX(v), COORD_LIMIT)
    && Within(v.y + StepY(v), COORD_LIMIT)
  }

  function Moved(v: EntityValue): EntityValue
    requires ValidValue(v) && CanMove(v)
  {
    var v1 := v.(x := v.x + StepX(v), y := v.y + StepY(v));
    if AnimationPaused(v) then v1
    else
      var accumulated := v1.animationSubtick + EffectiveRate(v1);
      v1.(animationTick := v1.animationTick + accumulated / 256, animationSubtick := accumulated % 256)
  }

  predicate CanStep(w: World) {
    w.tick < U64_MAX && forall i :: 0 <= i < |w.slots| && w.slots[i].active ==> CanMove(w.slots[i].value)
  }

  function MovedSlot(types: seq<EntityType>, s: Slot): Slot
    requires ValidSlot(types, s) && (s.active ==> CanMove(s.value))
  {
    if s.active then s.(value := Moved(s.value)) else s
  }

  function Step(w: World): (r: (World, bool))
    requires WellFormed(w)
  {
    if CanStep(w) then
      (w.(slots := seq(|w.slots|, i requires 0 <= i < |w.slots| => MovedSlot(w.types, w.slots[i])), tick := w.tick + 1), true)
    else (w, false)
  }

  // ---------------------------------------------------- the fixed update

  /** What a callback may ask of the world while an update is running. */
  datatype Command =
    | DoSpawn(value: EntityValue)
    | DoRemove(handle: Handle)
    | DoWrite(handle: Handle, value: EntityValue)
    | DoStep
    | DoLoad(bytes: seq<int>)
    | DoUpdate
    | DoDefineTypes(types: seq<EntityType>)

  /** One callback invocation: the calls it makes on the world and the verdict it returns. */
  datatype Turn = Turn(commands: seq<Command>, ok: bool)

  /** The world part-way through a callback, whether the update is poisoned, and the handles spawned so far. */
  datatype Progress = Progress(world: World, failed: bool, issued: seq<Handle>)

  /** A command run while `updating` is set. Nested advancement changes nothing and poisons the update. */
  function Perform(p: Progress, c: Command): (r: Progress)
    requires WellFormed(p.world)
    ensures WellFormed(r.world)
  {
    match c
    case DoSpawn(v) =>
      SpawnWellFormed(p.world, v);
      var (w, h) := Spawn(p.world, v);
      Progress(w, p.failed, if h == 0 then p.issued else p.issued + [h])
    case DoRemove(h) => RemoveWellFormed(p.world, h); p.(world := Remove(p.world, h).0)
    case DoWrite(h, v) => WriteWellFormed(p.world, h, v); p.(world := Write(p.world, h, v).0)
    case DoStep => p.(failed := p.failed || p.world.tick < U64_MAX)
    case DoLoad(_) => p.(failed := true)
    case DoUpdate => p.(failed := true)
    case DoDefineTypes(_) => p
  }

  function PerformAll(p: Progress, cs: seq<Command>): (r: Progress)
    requires WellFormed(p.world)
    ensures WellFormed(r.world)
    decreases |cs|
  {
    if cs == [] then p else PerformAll(Perform(p, cs[0]), cs[1..])
  }

  datatype Tour = Tour(world: World, ok: bool, visited: seq<Handle>, issued: seq<Handle>)

  /** Visits `handles` in order, skipping those that no longer resolve; the k-th invocation follows plan(k). */
  function Visit(w: World, handles: seq<Handle>, plan: nat -> Turn, visited: seq<Handle>, issued: seq<Handle>): (t: Tour)
    requires WellFormed(w)
    ensures WellFormed(t.world)
    decreases |handles|
  {
    if handles == [] then Tour(w, true, visited, issued)
    else if !Resolves(w, handles[0]) then Visit(w, handles[1..], plan, visited, issued)
    else
      var turn := plan(|visited|);
      var p := PerformAll(Progress(w, false, issued), turn.commands);
      if !turn.ok || p.failed then Tour(p.world, false, visited + [handles[0]], p.issued)
      else Visit(p.world, handles[1..], plan, visited + [handles[0]], p.issued)
  }

  /** Runs the callbacks, then steps; anything refused on the way restores the world it began with. */
  function Update(w: World, plan: nat -> Turn): (t: Tour)
    requires WellFormed(w)
  {
    var t := Visit(w, Live(w), plan, [], []);
    if t.ok && CanStep(t.world) then t.(world := Step(t.world).0) else Tour(w, false, t.visited, t.issued)
  }

  // ----------------------------------------- every operation keeps WellFormed

  lemma {:induction false} LiveUpToUnaffected(a: seq<Slot>, b: seq<Slot>, n: nat)
    requires n <= |a| <= WORLD_LIMIT && n <= |b| <= WORLD_LIMIT
    requires forall i :: 0 <= i < n ==> a[i].active == b[i].active && a[i].generation == b[i].generation
    ensures LiveUpTo(a, n) == LiveUpTo(b, n)
  {
    if n > 0 { LiveUpToUnaffected(a, b, n - 1); }
  }

  /** Activating or clearing one slot changes the number of live handles by exactly one. */
  lemma {:induction false} LiveCountUpdate(slots: seq<Slot>, k: nat, s: Slot, n: nat)
    requires k < n <= |slots| <= WORLD_LIMIT
    ensures |LiveUpTo(slots[k := s], n)| + (if slots[k].active then 1 else 0)
         == |LiveUpTo(slots, n)| + (if s.active then 1 else 0)
  {
    if n - 1 == k {
      LiveUpToUnaffected(slots, slots[k := s], k);
    } else {
      LiveCountUpdate(slots, k, s, n - 1);
    }
  }

  lemma SpawnWellFormed(w: World, v: EntityValue)
    requires WellFormed(w)
    ensures WellFormed(Spawn(w, v).0)
  {
    var k := FirstFree(w.slots, 0);
    if ValidWorldValue(w.types, v) && k < |w.slots| {
      LiveCountUpdate(w.slots, k, Slot(w.slots[k].generation + 1, true, v), |w.slots|);
    }
  }

  lemma RemoveWellFormed(w: World, h: Handle)
    requires WellFormed(w)
    ensures w.count > 0 || !Resolves(w, h)
    ensures WellFormed(Remove(w, h).0)
  {
    var i := SlotOf(w.slots, h);
    if i >= 0 {
      LiveCountUpdate(w.slots, i, Slot(w.slots[i].generation, false, ZERO_VALUE), |w.slots|);
    }
  }

  lemma WriteWellFormed(w: World, h: Handle, v: EntityValue)
    requires WellFormed(w)
    ensures WellFormed(Write(w, h, v).0)
  {
    var i := SlotOf(w.slots, h);
    if i >= 0 {
      LiveUpToUnaffected(w.slots, w.slots[i := w.slots[i].(value := v)], |w.slots|);
    }
  }

  lemma MovedValid(types: seq<EntityType>, v: EntityValue)
    requires ValidWorldValue(types, v) && CanMove(v)
    ensures ValidWorldValue(types, Moved(v))
  {
  }

  /** A refused step changes nothing; a granted one keeps every bound of a valid value. */
  lemma StepWellFormed(w: World)
    requires WellFormed(w)
    ensures WellFormed(Step(w).0)
    ensures Step(w).1 <==> CanStep(w)
    ensures !Step(w).1 ==> Step(w).0 == w
    ensures Live(Step(w).0) == Live(w)
  {
    if CanStep(w) {
      var w' := Step(w).0;
      forall i | 0 <= i < |w.slots|
        ensures ValidSlot(w.types, w'.slots[i])
      {
        if w.slots[i].active { MovedValid(w.types, w.slots[i].value); }
      }
      LiveUpToUnaffected(w.slots, w'.slots, |w.slots|);
    }
  }
}
