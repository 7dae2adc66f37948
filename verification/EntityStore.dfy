/**
 The world as a store from handles to values: what spawning, writing and removing put
 where, what they leave alone, when they refuse, and what a step does to the fields of
 an entity. Nothing here is stated through the operation it is about.
 */
module EntityStore {
  import opened Common
  import opened EntityModel
  import opened EntityLaws

  /** What a handle stands for. */
  function ValueOf(w: World, h: Handle): Option<EntityValue> {
    var i := SlotOf(w.slots, h);
    if i < 0 then None else Some(w.slots[i].value)
  }

  /** Nothing but slot i, the count of entities and the spawned latch may differ. */
  ghost predicate OnlySlot(w: World, w': World, i: nat) {
    && |w'.slots| == |w.slots| && w'.tick == w.tick && w'.types == w.types
    && forall j :: 0 <= j < |w.slots| && j != i ==> w'.slots[j] == w.slots[j]
  }

  /** Slot i could take another entity. */
  predicate Vacant(w: World, i: nat) {
    i < |w.slots| && !w.slots[i].active && w.slots[i].generation < U32_MAX
  }

  lemma SameSlotSameHandle(w: World, h: Handle, h': Handle)
    requires SlotOf(w.slots, h) == SlotOf(w.slots, h') >= 0
    ensures h == h'
  {
  }

  /** A write is granted exactly to a live handle, for a valid value of the entity's own type. Granted, the handle
      stands for the new value, and every other handle, slot and counter for what it did; refused, nothing changed. */
  lemma WriteStores(w: World, h: Handle, v: EntityValue)
    ensures var (w', ok) := Write(w, h, v);
            && (ok <==> ValueOf(w, h).Some? && ValidWorldValue(w.types, v) && v.typeId == ValueOf(w, h).value.typeId)
            && (!ok ==> w' == w)
            && (ok ==>
                  var i := SlotOf(w.slots, h);
                  && OnlySlot(w, w', i) && w'.count == w.count && w'.spawned == w.spawned
                  && w'.slots[i] == Slot(h / TWO32, true, v))
            && (forall h' :: ValueOf(w', h') == if ok && h' == h then Some(v) else ValueOf(w, h'))
  {
    var (w', ok) := Write(w, h, v);
    forall h' ensures ValueOf(w', h') == if ok && h' == h then Some(v) else ValueOf(w, h') {
      if SlotOf(w.slots, h') == SlotOf(w.slots, h) >= 0 { SameSlotSameHandle(w, h, h'); }
    }
  }

  /** A spawn is granted exactly if the value is valid and some slot is vacant. Granted, it takes the first vacant slot,
      the handle it returns stands for the value and stood for nothing before, and every other handle and slot stays;
      refused, it returns 0 and nothing changed. */
  lemma SpawnStores(w: World, v: EntityValue)
    requires WellFormed(w)
    ensures var (w', h) := Spawn(w, v);
            && (h != 0 <==> ValidWorldValue(w.types, v) && exists i :: 0 <= i < |w.slots| && Vacant(w, i))
            && (h == 0 ==> w' == w)
            && (h != 0 ==>
                  var i := SlotOf(w'.slots, h);
                  && 0 <= i && Vacant(w, i) && (forall j :: 0 <= j < i ==> !Vacant(w, j))
                  && OnlySlot(w, w', i) && w'.count == w.count + 1 && w'.spawned
                  && w'.slots[i] == Slot(w.slots[i].generation + 1, true, v)
                  && ValueOf(w, h) == None)
            && (forall h' :: ValueOf(w', h') == if h != 0 && h' == h then Some(v) else ValueOf(w, h'))
  {
    var (w', h) := Spawn(w, v);
    hide ValidWorldValue, WellFormed;
    var k := FirstFree(w.slots, 0);
    assert k < |w.slots| ==> Vacant(w, k);
    forall h' ensures ValueOf(w', h') == if h != 0 && h' == h then Some(v) else ValueOf(w, h') {
      if h != 0 && SlotOf(w'.slots, h') == SlotOf(w'.slots, h) { SameSlotSameHandle(w', h, h'); }
    }
  }

  /** A removal is granted exactly to a live handle. Granted, the handle stands for nothing, its slot is zeroed but for
      its generation, and every other handle and slot stays; refused, nothing changed. */
  lemma RemoveClears(w: World, h: Handle)
    requires WellFormed(w)
    ensures w.count > 0 || !Resolves(w, h)
    ensures var (w', ok) := Remove(w, h);
            && (ok <==> ValueOf(w, h).Some?)
            && (!ok ==> w' == w)
            && (ok ==>
                  var i := SlotOf(w.slots, h);
                  && OnlySlot(w, w', i) && w'.count == w.count - 1 && w'.spawned == w.spawned
                  && w'.slots[i] == Slot(h / TWO32, false, ZERO_VALUE))
            && (forall h' :: ValueOf(w', h') == if h' == h then None else ValueOf(w, h'))
  {
    RemoveWellFormed(w, h);
    hide WellFormed;
    var w' := Remove(w, h).0;
    forall h' ensures ValueOf(w', h') == if h' == h then None else ValueOf(w, h') {
      if SlotOf(w.slots, h') == SlotOf(w.slots, h) >= 0 { SameSlotSameHandle(w, h, h'); }
    }
  }

  // ------------------------------------------------------------------- steps

  // Bits 1 and 2 of the flags stop the animation and take motion into the owner's hands.
  predicate Paused(v: EntityValue) { v.flags / 2 % 2 == 1 }
  predicate Held(v: EntityValue) { v.flags / 4 % 2 == 1 }

  /** The entity after n ticks, had numbers no bounds: it moves by its velocity unless held, and its animation clock,
      256 to the tick, gains its rate unless paused; rate 0 means one tick per tick. */
  ghost predicate Elapsed(v: EntityValue, n: nat, x: int, y: int, clock: int) {
    && (Held(v) ==> x == v.x && y == v.y)
    && (!Held(v) ==> x == v.x + n * v.vx && y == v.y + n * v.vy)
    && (Paused(v) ==> clock == 256 * v.animationTick + v.animationSubtick)
    && (!Paused(v) && v.animationRate == 0 ==> clock == 256 * v.animationTick + v.animationSubtick + n * 256)
    && (!Paused(v) && v.animationRate != 0 ==>
          clock == 256 * v.animationTick + v.animationSubtick + n * v.animationRate)
  }

  /** Where an entity would be after one tick is within bounds. */
  ghost predicate StaysInBounds(v: EntityValue) {
    forall x, y, clock :: Elapsed(v, 1, x, y, clock) ==>
      -COORD_LIMIT <= x <= COORD_LIMIT && -COORD_LIMIT <= y <= COORD_LIMIT && clock / 256 <= ANIMATION_TICK_MAX
  }

  function RateOf(v: EntityValue): int { if v.animationRate == 0 then 256 else v.animationRate }

  lemma MoveIsGrantedIff(v: EntityValue)
    requires ValidValue(v)
    ensures CanMove(v) <==> StaysInBounds(v)
  {
    var x := if Held(v) then v.x else v.x + v.vx;
    var y := if Held(v) then v.y else v.y + v.vy;
    var clock := 256 * v.animationTick + v.animationSubtick + if Paused(v) then 0 else RateOf(v);
    assert Elapsed(v, 1, x, y, clock);
  }

  /** A step is granted if and only if the tick counter can advance and no entity would leave its bounds. */
  lemma StepIsGrantedIff(w: World)
    requires WellFormed(w)
    ensures Step(w).1 <==> w.tick < U64_MAX && forall i :: 0 <= i < |w.slots| && w.slots[i].active ==>
                             StaysInBounds(w.slots[i].value)
  {
    forall i | 0 <= i < |w.slots| && w.slots[i].active
      ensures CanMove(w.slots[i].value) <==> StaysInBounds(w.slots[i].value)
    {
      assert ValidSlot(w.types, w.slots[i]);
      MoveIsGrantedIff(w.slots[i].value);
    }
    hide WellFormed, CanMove, StaysInBounds;
  }

  /** After n granted steps every live entity is where n ticks take it, nothing else about it or about any free slot has
      changed, and the clock has advanced by n. */
  lemma StepsElapse(w: World, n: nat, i: nat)
    requires WellFormed(w) && i < |w.slots| && StepTimes(w, n).1
    ensures var (s, w') := (w.slots[i], StepTimes(w, n).0);
            var v' := w'.slots[i].value;
            && w'.tick == w.tick + n
            && (!s.active ==> w'.slots[i] == s)
            && (s.active ==>
                  && w'.slots[i].active && w'.slots[i].generation == s.generation
                  && Elapsed(s.value, n, v'.x, v'.y, 256 * v'.animationTick + v'.animationSubtick)
                  && 0 <= v'.animationSubtick < 256
                  && v' == s.value.(x := v'.x, y := v'.y, animationTick := v'.animationTick,
                                    animationSubtick := v'.animationSubtick))
  {
    hide WellFormed, StepTimes, Elapsed, StepX, StepY, ClockRate;
    if w.slots[i].active {
      SteppingIsDriftFree(w, n, i);
      SubtickStaysSmall(w, n, i);
      ElapsedIsDrift(w.slots[i].value, n);
    } else {
      VacantSlotsStay(w, n, i);
    }
  }

  lemma ElapsedIsDrift(v: EntityValue, n: nat)
    ensures Elapsed(v, n, v.x + n * StepX(v), v.y + n * StepY(v), Clock(v) + n * ClockRate(v))
  {
  }

  lemma SubtickStaysSmall(w: World, n: nat, i: nat)
    requires WellFormed(w) && i < |w.slots|
    ensures StepTimes(w, n).0.slots[i].active ==> 0 <= StepTimes(w, n).0.slots[i].value.animationSubtick < 256
  {
    var w' := StepTimes(w, n).0;
    assert ValidSlot(w'.types, w'.slots[i]);
  }

  lemma {:induction false} VacantSlotsStay(w: World, n: nat, i: nat)
    requires WellFormed(w) && i < |w.slots| && !w.slots[i].active && StepTimes(w, n).1
    ensures StepTimes(w, n).0.slots[i] == w.slots[i] && StepTimes(w, n).0.tick == w.tick + n
  {
    if n > 0 {
      VacantSlotsStay(w, n - 1, i);
      StepWellFormed(StepTimes(w, n - 1).0);
      hide WellFormed;
    }
  }
}
