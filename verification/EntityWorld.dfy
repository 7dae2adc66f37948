/**
 The entity world as the engine holds it: a slot array and a few counters updated
 in place. Every method is proved against the function of the same name in
 EntityModel or EntitySnapshot.
 */
module EntityWorldState {
  import M = EntityModel
  import S = EntitySnapshot
  import opened Common
  import opened EntityModel
  import opened EntitySnapshot
  import opened Sorting

  // --------------------------------------------------- word access to buffers

  lemma BytesOfUpdate(ws: seq<u32>, i: nat, v: u32)
    requires i < |ws|
    ensures Bytes(ws[i := v])
         == Bytes(ws)[4 * i := ByteOf(v, 0)][4 * i + 1 := ByteOf(v, 1)][4 * i + 2 := ByteOf(v, 2)][4 * i + 3 := ByteOf(v, 3)]
  {
  }

  method PutWord(buffer: array<byte>, i: nat, v: u32, ghost ws: seq<u32>)
    requires buffer[..] == Bytes(ws) && i < |ws|
    modifies buffer
    ensures buffer[..] == Bytes(ws[i := v])
  {
    BytesOfUpdate(ws, i, v);
    buffer[4 * i] := ByteOf(v, 0);
    buffer[4 * i + 1] := ByteOf(v, 1);
    buffer[4 * i + 2] := ByteOf(v, 2);
    buffer[4 * i + 3] := ByteOf(v, 3);
  }

  /** `ws` with `patch` written over it from position `at`. */
  function Splice(ws: seq<u32>, at: nat, patch: seq<u32>): (r: seq<u32>)
    requires at + |patch| <= |ws|
    ensures |r| == |ws|
  {
    ws[..at] + patch + ws[at + |patch|..]
  }

  method PutWords(buffer: array<byte>, at: nat, patch: seq<u32>, ghost ws: seq<u32>)
    requires buffer[..] == Bytes(ws) && at + |patch| <= |ws|
    modifies buffer
    ensures buffer[..] == Bytes(Splice(ws, at, patch))
  {
    assert Splice(ws, at, []) == ws;
    for k := 0 to |patch|
      invariant buffer[..] == Bytes(Splice(ws, at, patch[..k]))
    {
      PutWord(buffer, at + k, patch[k], Splice(ws, at, patch[..k]));
      assert Splice(ws, at, patch[..k])[at + k := patch[k]] == Splice(ws, at, patch[..k + 1]);
    }
    assert patch[..|patch|] == patch;
  }

  method ClearBuffer(buffer: array<byte>)
    modifies buffer
    ensures forall k :: 0 <= k < buffer.Length ==> buffer[k] == 0
  {
    for j := 0 to buffer.Length
      invariant forall k :: 0 <= k < j ==> buffer[k] == 0
    {
      buffer[j] := 0;
    }
  }

  lemma ZeroBytes(n: nat, b: seq<byte>)
    requires |b| == 4 * n && forall j :: 0 <= j < |b| ==> b[j] == 0
    ensures b == Bytes(Zeros(n))
  {
  }

  /** Writing the next record over the zeros left after the records written so far. */
  lemma PatchZeros(front: seq<u32>, done: seq<u32>, r: seq<u32>, left: nat, back: seq<u32>, ws: seq<u32>, at: nat)
    returns (ws': seq<u32>)
    requires |r| <= left && at == |front| + |done|
    requires ws == front + (done + Zeros(left)) + back
    ensures ws' == Splice(ws, at, r)
    ensures ws' == front + ((done + r) + Zeros(left - |r|)) + back
  {
    ws' := Splice(ws, at, r);
  }

  lemma {:induction false} TypesWordsAt(types: seq<EntityType>, t: nat)
    requires Encodable(types) && t < |types|
    ensures TypesWords(types)[..TYPE_WORDS * t] == TypesWords(types[..t])
    ensures TypesWords(types)[TYPE_WORDS * t..][..TYPE_WORDS] == TypeWords(types[t])
  {
    var last := |types| - 1;
    var rest := TypesWords(types[..last]);
    if t == last {
      assert TypesWords(types)[TYPE_WORDS * t..] == TypeWords(types[last]);
    } else {
      TypesWordsAt(types[..last], t);
      assert types[..last][..t] == types[..t];
      assert TypesWords(types)[..TYPE_WORDS * t] == rest[..TYPE_WORDS * t];
      assert TypesWords(types)[TYPE_WORDS * t..][..TYPE_WORDS] == rest[TYPE_WORDS * t..][..TYPE_WORDS];
    }
  }

  lemma GetIsZero(b: seq<byte>, at: nat)
    requires at + 4 <= |b|
    ensures Get32(b, at) == 0 <==> b[at] == 0 && b[at + 1] == 0 && b[at + 2] == 0 && b[at + 3] == 0
  {
  }

  // --------------------------------------------------------- sorting of types

  predicate IdNotAfter(a: EntityType, b: EntityType) { a.id <= b.id }

  function IdOf(t: EntityType): u32 { t.id }

  function SortedById(types: seq<EntityType>): (r: seq<EntityType>)
    ensures |r| == |types|
  {
    Sorted(types, IdNotAfter)
  }

  /** Definitions with distinct ids come out strictly sorted, none lost and none invented. */
  lemma SortedIsSorted(types: seq<EntityType>)
    requires DistinctIds(types)
    ensures SortedTypes(SortedById(types))
    ensures forall t :: t in SortedById(types) <==> t in types
  {
    SortedIsOrdered(types, IdNotAfter);
    assert Distinct(types, IdOf);
    SortedKeepsDistinct(types, IdNotAfter, IdOf);
    hide Sorted;
    var r := SortedById(types);
    forall i, j | 0 <= i < j < |r| ensures r[i].id < r[j].id { assert IdNotAfter(r[i], r[j]) && IdOf(r[i]) != IdOf(r[j]); }
  }

  /** Sorted identifiers are distinct, so the type at k is the one a lookup of its id finds. */
  lemma {:induction false} TypeIndexIsUnique(types: seq<EntityType>, k: nat)
    requires SortedTypes(types) && k < |types|
    ensures TypeIndex(types, types[k].id) == k
  {
    if k < |types| - 1 { TypeIndexIsUnique(types[..|types| - 1], k); }
  }

  /** Whether every definition is valid and no two share an id. */
  method CheckTypes(defs: seq<EntityType>) returns (ok: bool)
    ensures ok <==> (forall i :: 0 <= i < |defs| ==> ValidType(defs[i])) && DistinctIds(defs)
  {
    for i := 0 to |defs|
      invariant forall k :: 0 <= k < i ==> ValidType(defs[k])
      invariant DistinctIds(defs[..i])
    {
      if !ValidType(defs[i]) { return false; }
      for j := 0 to i
        invariant forall k :: 0 <= k < j ==> defs[k].id != defs[i].id
      {
        if defs[j].id == defs[i].id { return false; }
      }
    }
    assert defs[..|defs|] == defs;
    return true;
  }

  lemma BindingKeepsWellFormed(w: World, bound: seq<EntityType>)
    requires WellFormed(w) && !w.spawned
    requires |bound| <= WORLD_LIMIT && SortedTypes(bound) && forall i :: 0 <= i < |bound| ==> ValidType(bound[i])
    ensures WellFormed(w.(types := bound))
  {
    hide ValidType, SortedTypes;
  }

  method SortTypes(defs: seq<EntityType>) returns (bound: seq<EntityType>)
    requires AcceptableTypes(defs)
    ensures bound == SortedById(defs) && |bound| == |defs| && SortedTypes(bound)
    ensures forall i :: 0 <= i < |bound| ==> ValidType(bound[i])
  {
    hide ValidType;
    SortedIsSorted(defs);
    bound := SortBy(defs, IdNotAfter);
    forall i | 0 <= i < |bound| ensures ValidType(bound[i]) { assert bound[i] in bound && bound[i] in defs; }
  }

  method AnySolid(types: seq<EntityType>) returns (found: bool)
    ensures found <==> HasSolids(types)
  {
    found := false;
    for i := 0 to |types|
      invariant found ==> HasSolids(types)
      invariant !found ==> forall a, b :: 0 <= a < i && 0 <= b < |types[a].regions| ==> types[a].regions[b].role != Solid
    {
      for j := 0 to |types[i].regions|
        invariant found ==> HasSolids(types)
        invariant !found ==> forall a, b :: 0 <= a < i && 0 <= b < |types[a].regions| ==> types[a].regions[b].role != Solid
        invariant !found ==> forall b :: 0 <= b < j ==> types[i].regions[b].role != Solid
      {
        if types[i].regions[j].role == Solid { found := true; }
      }
    }
  }

  // ----------------------------------------------- lookups shared by methods

  /** Binary search of the sorted types. */
  method FindType(types: seq<EntityType>, id: u32) returns (k: int)
    requires SortedTypes(types)
    ensures k == TypeIndex(types, id)
  {
    var lo, hi := 0, |types|;
    while lo < hi
      invariant 0 <= lo <= hi <= |types|
      invariant forall i :: 0 <= i < lo ==> types[i].id < id
      invariant forall i :: hi <= i < |types| ==> id <= types[i].id
    {
      var mid := lo + (hi - lo) / 2;
      if types[mid].id < id { lo := mid + 1; } else { hi := mid; }
    }
    if lo < |types| && types[lo].id == id {
      TypeIndexIsUnique(types, lo);
      return lo;
    }
    return -1;
  }

  method CheckValue(types: seq<EntityType>, v: EntityValue) returns (ok: bool)
    requires SortedTypes(types)
    ensures ok == ValidWorldValue(types, v)
  {
    if !ValidValue(v) { return false; }
    if types == [] { return v.animationId == 0; }
    var k := FindType(types, v.typeId);
    ok := k >= 0 && v.animationId <= types[k].animationCount;
  }

  // ------------------------------------------------- the parts of a snapshot

  method SaveTypes(buffer: array<byte>, types: seq<EntityType>, ghost front: seq<u32>)
    requires Encodable(types)
    requires buffer[..] == Bytes(front + Zeros(TYPE_WORDS * |types|))
    modifies buffer
    ensures buffer[..] == Bytes(front + TypesWords(types))
  {
    ghost var ws := front + Zeros(TYPE_WORDS * |types|);
    var base := buffer.Length / 4 - TYPE_WORDS * |types|;
    assert |buffer[..]| == buffer.Length;
    for t := 0 to |types|
      invariant ws == front + (TypesWords(types[..t]) + Zeros(TYPE_WORDS * (|types| - t))) + []
      invariant buffer[..] == Bytes(ws)
    {
      var at := base + TYPE_WORDS * t;
      PutWords(buffer, at, TypeWords(types[t]), ws);
      assert types[..t + 1][..t] == types[..t];
      ws := PatchZeros(front, TypesWords(types[..t]), TypeWords(types[t]), TYPE_WORDS * (|types| - t), [], ws, at);
    }
    assert types[..|types|] == types;
    assert ws == front + TypesWords(types);
  }

  method SaveSlots(buffer: array<byte>, slots: array<Slot>, ghost front: seq<u32>, ghost back: seq<u32>)
    requires |front| == HEADER_WORDS
    requires buffer[..] == Bytes(front + Zeros(SLOT_WORDS * slots.Length) + back)
    requires (buffer as object) != slots
    modifies buffer
    ensures buffer[..] == Bytes(front + SlotsWords(slots[..]) + back)
  {
    ghost var n := slots.Length;
    ghost var ws := front + Zeros(SLOT_WORDS * n) + back;
    for i := 0 to slots.Length
      invariant ws == front + (SlotsWords(slots[..i]) + Zeros(SLOT_WORDS * (n - i))) + back
      invariant buffer[..] == Bytes(ws)
    {
      var at := HEADER_WORDS + SLOT_WORDS * i;
      PutWords(buffer, at, SlotWords(slots[i]), ws);
      assert slots[..i + 1][..i] == slots[..i];
      ws := PatchZeros(front, SlotsWords(slots[..i]), SlotWords(slots[i]), SLOT_WORDS * (n - i), back, ws, at);
    }
    assert slots[..n] == slots[..];
    assert ws == front + SlotsWords(slots[..]) + back;
  }

  lemma SliceExtends(ws: seq<u32>, a: nat, b: nat, c: nat)
    requires a <= b <= c <= |ws|
    ensures ws[a..c] == ws[a..b] + ws[b..c]
  {
  }

  lemma SliceOfTail(ws: seq<u32>, at: nat, from: nat, n: nat)
    requires at + from + n <= |ws|
    ensures ws[at..][from..][..n] == ws[at + from..at + from + n]
  {
  }

  /** Whether the types region of a snapshot, found at word `at`, is exactly that of the bound types. */
  method TypesMatch(types: seq<EntityType>, ws: seq<u32>, at: nat) returns (ok: bool)
    requires Encodable(types) && |ws| == at + TYPE_WORDS * |types|
    ensures ok <==> ws[at..] == TypesWords(types)
  {
    for t := 0 to |types|
      invariant ws[at..at + TYPE_WORDS * t] == TypesWords(types[..t])
    {
      var from := at + TYPE_WORDS * t;
      if ws[from..from + TYPE_WORDS] != TypeWords(types[t]) {
        TypesWordsAt(types, t);
        SliceOfTail(ws, at, TYPE_WORDS * t, TYPE_WORDS);
        return false;
      }
      assert types[..t + 1][..t] == types[..t];
      SliceExtends(ws, at, from, from + TYPE_WORDS);
    }
    assert types[..|types|] == types;
    return true;
  }

  /** Whether every byte from the third word of record i on is zero. */
  method RestIsZero(buffer: array<byte>, i: nat) returns (zero: bool)
    requires 4 * (HEADER_WORDS + SLOT_WORDS * (i + 1)) <= buffer.Length
    ensures zero <==> forall k :: 2 <= k < SLOT_WORDS ==> SlotRecord(Words(buffer[..]), i)[k] == 0
  {
    var base := 4 * (HEADER_WORDS + SLOT_WORDS * i);
    ghost var r := SlotRecord(Words(buffer[..]), i);
    for j := base + 8 to base + 4 * SLOT_WORDS
      invariant forall k :: base + 8 <= k < j ==> buffer[k] == 0
    {
      if buffer[j] != 0 {
        ghost var k := (j - base) / 4;
        assert r[k] == Get32(buffer[..], base + 4 * k);
        GetIsZero(buffer[..], base + 4 * k);
        return false;
      }
    }
    forall k | 2 <= k < SLOT_WORDS ensures r[k] == 0 {
      assert r[k] == Get32(buffer[..], base + 4 * k);
      GetIsZero(buffer[..], base + 4 * k);
    }
    return true;
  }

  /** Whether record i of a snapshot is acceptable. */
  method CheckRecord(types: seq<EntityType>, buffer: array<byte>, i: nat) returns (ok: bool)
    requires SortedTypes(types) && 4 * (HEADER_WORDS + SLOT_WORDS * (i + 1)) <= buffer.Length
    ensures ok <==> SlotAccepted(types, SlotRecord(Words(buffer[..]), i))
  {
    var r := SlotRecord(Words(buffer[..]), i);
    if r[1] > 1 { return false; }
    if r[1] == 1 {
      var valid := CheckValue(types, DecodeSlot(r).value);
      return r[0] != 0 && valid;
    }
    ok := RestIsZero(buffer, i);
  }

  lemma LiveOneMore(ws: seq<u32>, n: nat, i: nat)
    requires i < n <= WORLD_LIMIT && HEADER_WORDS + SLOT_WORDS * n <= |ws|
    ensures var slots := DecodedSlots(ws, n);
            |LiveUpTo(slots, i + 1)| == |LiveUpTo(slots, i)| + (if SlotRecord(ws, i)[1] != 0 then 1 else 0)
  {
  }

  /** Whether all n records are acceptable, and how many of them are active. */
  method CheckRecords(types: seq<EntityType>, buffer: array<byte>, n: nat) returns (ok: bool, live: nat)
    requires SortedTypes(types) && n <= WORLD_LIMIT && 4 * (HEADER_WORDS + SLOT_WORDS * n) <= buffer.Length
    ensures ok <==> forall i :: 0 <= i < n ==> SlotAccepted(types, SlotRecord(Words(buffer[..]), i))
    ensures ok ==> live == |LiveUpTo(DecodedSlots(Words(buffer[..]), n), n)|
  {
    hide ValidWorldValue, LiveUpTo, DecodedSlots, SlotRecord, Words;
    var ws := Words(buffer[..]);
    live := 0;
    for i := 0 to n
      invariant forall k :: 0 <= k < i ==> SlotAccepted(types, SlotRecord(ws, k))
      invariant live == |LiveUpTo(DecodedSlots(ws, n), i)|
    {
      ok := CheckRecord(types, buffer, i);
      if !ok { return; }
      LiveOneMore(ws, n, i);
      if SlotRecord(ws, i)[1] == 1 { live := live + 1; }
    }
    ok := true;
  }

  /** Whether a buffer of the right length holds an acceptable header, the bound types and acceptable records. */
  method CheckParts(types: seq<EntityType>, buffer: array<byte>, n: nat) returns (ok: bool)
    requires SortedTypes(types) && Encodable(types) && n <= WORLD_LIMIT
    requires buffer.Length == 4 * (HEADER_WORDS + SLOT_WORDS * n + TYPE_WORDS * |types|)
    ensures var ws := Words(buffer[..]);
            ok <==> && HeaderAccepted(ws, n, |types|)
                    && ws[HEADER_WORDS + SLOT_WORDS * n..] == TypesWords(types)
                    && (forall i :: 0 <= i < n ==> SlotAccepted(types, SlotRecord(ws, i)))
                    && ws[3] == |LiveUpTo(DecodedSlots(ws, n), n)|
  {
    hide SortedTypes, Encodable, TypesWords, SlotAccepted, SlotRecord, DecodedSlots, LiveUpTo, HeaderAccepted;
    var ws := Words(buffer[..]);
    ok := HeaderAccepted(ws, n, |types|);
    if ok { ok := TypesMatch(types, ws, HEADER_WORDS + SLOT_WORDS * n); }
    if ok {
      var live;
      ok, live := CheckRecords(types, buffer, n);
      ok := ok && live == ws[3];
    }
  }

  /** Validation taken apart as the code performs it. */
  lemma AcceptedByParts(w: World, b: seq<byte>)
    requires 0 < |w.slots| <= WORLD_LIMIT && Encodable(w.types)
    ensures |b| != 4 * WordCount(w) ==> !Accepts(w, b)
    ensures |b| == 4 * WordCount(w) ==>
              var ws, n := Words(b), |w.slots|;
              Accepts(w, b) <==> && HeaderAccepted(ws, n, |w.types|)
                                 && ws[HEADER_WORDS + SLOT_WORDS * n..] == TypesWords(w.types)
                                 && (forall i :: 0 <= i < n ==> SlotAccepted(w.types, SlotRecord(ws, i)))
                                 && ws[3] == |LiveUpTo(DecodedSlots(ws, n), n)|
  {
    hide HeaderAccepted, TypesWords, SlotAccepted, LiveUpTo, DecodedSlots, SlotRecord;
  }

  method CheckSnapshot(ghost w: World, types: seq<EntityType>, buffer: array<byte>, n: nat) returns (ok: bool)
    requires types == w.types && n == |w.slots| && 0 < n <= WORLD_LIMIT && Encodable(types) && SortedTypes(types)
    ensures ok == Accepts(w, buffer[..])
  {
    hide SortedTypes, Encodable, HeaderAccepted, TypesWords, SlotAccepted, SlotRecord, DecodedSlots, LiveUpTo, Words,
      Accepts;
    AcceptedByParts(w, buffer[..]);
    if buffer.Length != 4 * (HEADER_WORDS + SLOT_WORDS * n + TYPE_WORDS * |types|) { return false; }
    ok := CheckParts(types, buffer, n);
  }

  method DecodeInto(slots: array<Slot>, ws: seq<u32>)
    requires HEADER_WORDS + SLOT_WORDS * slots.Length <= |ws|
    modifies slots
    ensures slots[..] == DecodedSlots(ws, slots.Length)
  {
    for i := 0 to slots.Length
      invariant forall k :: 0 <= k < i ==> slots[k] == DecodeSlot(SlotRecord(ws, k))
    {
      slots[i] := DecodeSlot(SlotRecord(ws, i));
    }
  }

  /** A handle resolves in an accepted snapshot iff its record is active and of its nonzero generation. */
  lemma ResolvesInSnapshot(w: World, ws: seq<u32>, h: Handle)
    requires 0 < |w.slots| <= WORLD_LIMIT && Encodable(w.types) && AcceptsWords(w, ws)
    ensures var slot := h % TWO32;
            Resolves(DecodeWords(w, ws), h)
            <==> 1 <= slot <= |w.slots| && h / TWO32 != 0
                 && SlotRecord(ws, slot - 1)[1] == 1 && SlotRecord(ws, slot - 1)[0] == h / TWO32
  {
    hide ValidWorldValue, HeaderAccepted, TypesWords, LiveUpTo, Encodable, SlotRecord;
    var slot := h % TWO32;
    if 1 <= slot <= |w.slots| {
      var r := SlotRecord(ws, slot - 1);
      assert SlotAccepted(w.types, r);
      assert DecodeWords(w, ws).slots[slot - 1] == DecodeSlot(r);
    }
  }

  // ------------------------------------------------------- the step's passes

  method AllCanMove(slots: array<Slot>) returns (ok: bool)
    ensures ok <==> forall i :: 0 <= i < slots.Length && slots[i].active ==> CanMove(slots[i].value)
  {
    for i := 0 to slots.Length
      invariant forall k :: 0 <= k < i && slots[k].active ==> CanMove(slots[k].value)
    {
      if slots[i].active {
        if !CanMove(slots[i].value) { return false; }
      }
    }
    return true;
  }

  method MoveAll(slots: array<Slot>, ghost types: seq<EntityType>)
    requires forall i :: 0 <= i < slots.Length ==> ValidSlot(types, slots[i])
    requires forall i :: 0 <= i < slots.Length && slots[i].active ==> CanMove(slots[i].value)
    modifies slots
    ensures forall i :: 0 <= i < slots.Length ==> slots[i] == MovedSlot(types, old(slots[i]))
  {
    for i := 0 to slots.Length
      invariant forall k :: 0 <= k < i ==> slots[k] == MovedSlot(types, old(slots[k]))
      invariant forall k :: i <= k < slots.Length ==> slots[k] == old(slots[k])
    {
      if slots[i].active {
        slots[i] := slots[i].(value := Moved(slots[i].value));
      }
    }
  }

  // ------------------------------------------------------------------- world

  lemma {:induction false} NothingLive(slots: seq<Slot>, n: nat)
    requires n <= |slots| <= WORLD_LIMIT && forall i :: 0 <= i < |slots| ==> !slots[i].active
    ensures LiveUpTo(slots, n) == []
  {
    if n > 0 { NothingLive(slots, n - 1); }
  }

  class EntityWorld {
    const slots: array<Slot>
    var count: u32
    var tick: u64
    var types: seq<EntityType>
    var spawned: bool
    var updating: bool
    var updateFailed: bool
    var hasSolids: bool

    ghost function Abs(): World
      reads this, slots
    {
      World(slots[..], count, tick, types, spawned)
    }

    ghost predicate Valid()
      reads this, slots
    {
      WellFormed(Abs()) && (hasSolids <==> HasSolids(types))
    }

    constructor (capacity: nat)
      requires 0 < capacity <= WORLD_LIMIT
      ensures Valid() && fresh(slots)
      ensures Abs() == World(seq(capacity, _ => FRESH_SLOT), 0, 0, [], false)
      ensures !updating && !updateFailed
    {
      slots := new Slot[capacity](_ => FRESH_SLOT);
      count, tick, types, spawned, updating, updateFailed, hasSolids := 0, 0, [], false, false, false, false;
      new;
      NothingLive(slots[..], capacity);
    }

    /** The slot a handle resolves to, or -1. */
    method FindSlot(h: Handle) returns (i: int)
      ensures i == SlotOf(slots[..], h)
    {
      var index := h % TWO32;
      if index == 0 || index > slots.Length { return -1; }
      if slots[index - 1].active && slots[index - 1].generation == h / TWO32 { return index - 1; }
      return -1;
    }

    method Spawn(v: EntityValue) returns (h: Handle)
      requires Valid()
      modifies this, slots
      ensures Valid() && (Abs(), h) == M.Spawn(old(Abs()), v)
      ensures updating == old(updating) && updateFailed == old(updateFailed) && types == old(types)
    {
      SpawnWellFormed(Abs(), v);
      assert SortedTypes(types);
      hide WellFormed, ValidWorldValue;
      h := 0;
      var ok := CheckValue(types, v);
      if !ok { return; }
      var i := 0;
      while i < slots.Length
        invariant 0 <= i <= slots.Length
        invariant FirstFree(slots[..], i) == FirstFree(slots[..], 0)
      {
        if slots[i].active || slots[i].generation == U32_MAX { i := i + 1; continue; }
        spawned := true;
        slots[i] := Slot(slots[i].generation + 1, true, v);
        count := count + 1;
        h := MakeHandle(i, slots[i].generation);
        return;
      }
    }

    method Remove(h: Handle) returns (ok: bool)
      requires Valid()
      modifies this, slots
      ensures old(Abs()).count > 0 || !Resolves(old(Abs()), h)
      ensures Valid() && (Abs(), ok) == M.Remove(old(Abs()), h)
      ensures updating == old(updating) && updateFailed == old(updateFailed) && types == old(types)
    {
      RemoveWellFormed(Abs(), h);
      var i := FindSlot(h);
      if i < 0 { return false; }
      slots[i] := slots[i].(active := false);
      slots[i] := slots[i].(value := ZERO_VALUE);
      count := count - 1;
      assert Abs().slots == M.Remove(old(Abs()), h).0.slots;
      return true;
    }

    method Read(h: Handle) returns (v: EntityValue, ok: bool)
      requires Valid()
      ensures ok == Resolves(Abs(), h)
      ensures ok ==> v == slots[SlotOf(slots[..], h)].value
    {
      var i := FindSlot(h);
      if i < 0 { return ZERO_VALUE, false; }
      return slots[i].value, true;
    }

    method Write(h: Handle, v: EntityValue) returns (ok: bool)
      requires Valid()
      modifies this, slots
      ensures Valid() && (Abs(), ok) == M.Write(old(Abs()), h, v)
      ensures updating == old(updating) && updateFailed == old(updateFailed) && types == old(types)
    {
      WriteWellFormed(Abs(), h, v);
      var i := FindSlot(h);
      if i < 0 { return false; }
      var valid := CheckValue(types, v);
      if !valid || v.typeId != slots[i].value.typeId { return false; }
      slots[i] := slots[i].(value := v);
      return true;
    }

    /** The next live handle at or after a cursor, and the cursor past it; 0 when there is none. */
    method Next(cursor: nat) returns (h: Handle, cursor': nat)
      requires cursor <= slots.Length <= WORLD_LIMIT
      ensures cursor <= cursor' <= slots.Length
      ensures h == 0 ==> cursor' == slots.Length
      ensures LiveUpTo(slots[..], cursor') == LiveUpTo(slots[..], cursor) + (if h == 0 then [] else [h])
      ensures h != 0 ==> cursor < cursor'
    {
      cursor' := cursor;
      while cursor' < slots.Length
        invariant cursor <= cursor' <= slots.Length
        invariant LiveUpTo(slots[..], cursor') == LiveUpTo(slots[..], cursor)
      {
        var i := cursor';
        cursor' := cursor' + 1;
        if slots[i].active { return MakeHandle(i, slots[i].generation), cursor'; }
      }
      return 0, cursor';
    }

    /** Two passes: the first refuses before anything moves, the second cannot fail. */
    method Step() returns (ok: bool)
      requires Valid()
      modifies this, slots
      ensures Valid()
      ensures if old(updating) then !ok && Abs() == old(Abs()) else (Abs(), ok) == M.Step(old(Abs()))
      ensures updating == old(updating) && types == old(types)
      ensures updateFailed == (old(updateFailed) || (old(updating) && old(tick) < U64_MAX))
    {
      ghost var w := Abs();
      StepWellFormed(w);
      if tick == U64_MAX { return false; }
      if updating { updateFailed := true; return false; }
      ok := AllCanMove(slots);
      if !ok { return; }
      assert CanStep(w);
      MoveAll(slots, types);
      tick := tick + 1;
      assert Abs().slots == M.Step(w).0.slots;
    }

    // ------------------------------------------------------------- snapshots

    method Save(buffer: array<byte>) returns (ok: bool)
      requires Valid() && (buffer as object) != slots
      modifies buffer
      ensures 0 < slots.Length <= WORLD_LIMIT && Encodable(types)
      ensures ok <==> buffer.Length == 4 * WordCount(Abs())
      ensures buffer[..] == if ok then Encode(Abs()) else old(buffer[..])
    {
      WellFormedIsEncodable(Abs());
      var slotWords, typeWords := SLOT_WORDS * slots.Length, TYPE_WORDS * |types|;
      if buffer.Length != 4 * (HEADER_WORDS + slotWords + typeWords) { return false; }
      var header := HeaderWords(slots.Length, count, tick, |types|);
      ClearBuffer(buffer);
      ghost var zeros := Zeros(HEADER_WORDS + slotWords + typeWords);
      ZeroBytes(HEADER_WORDS + slotWords + typeWords, buffer[..]);
      PutWords(buffer, 0, header, zeros);
      assert Splice(zeros, 0, header) == header + Zeros(slotWords) + Zeros(typeWords);
      SaveTypes(buffer, types, header + Zeros(slotWords));
      SaveSlots(buffer, slots, header, TypesWords(types));
      return true;
    }

    method ValidateSnapshot(buffer: array<byte>) returns (ok: bool)
      requires Valid()
      ensures 0 < slots.Length <= WORLD_LIMIT && Encodable(types)
      ensures ok == Accepts(Abs(), buffer[..])
    {
      hide WellFormed, SortedTypes, Encodable, Accepts;
      WellFormedIsEncodable(Abs());
      ok := CheckSnapshot(Abs(), types, buffer, slots.Length);
    }

    /** Validates, then checks that each handle names an active slot and its exact generation in those bytes. */
    method SnapshotContainsHandles(buffer: array<byte>, handles: seq<Handle>) returns (ok: bool)
      requires Valid()
      ensures 0 < slots.Length <= WORLD_LIMIT && Encodable(types)
      ensures ok <==> Accepts(Abs(), buffer[..])
                      && forall k :: 0 <= k < |handles| ==> Resolves(Decode(Abs(), buffer[..]), handles[k])
    {
      hide WellFormed, AcceptsWords, SlotRecord, DecodeWords, Resolves;
      ok := ValidateSnapshot(buffer);
      if !ok { return; }
      var ws := Words(buffer[..]);
      for i := 0 to |handles|
        invariant forall k :: 0 <= k < i ==> Resolves(Decode(Abs(), buffer[..]), handles[k])
      {
        ResolvesInSnapshot(Abs(), ws, handles[i]);
        var slot := handles[i] % TWO32;
        if slot == 0 || slot > slots.Length { return false; }
        var r := SlotRecord(ws, slot - 1);
        if handles[i] / TWO32 == 0 || r[1] != 1 || r[0] != handles[i] / TWO32 { return false; }
      }
    }

    method Load(buffer: array<byte>) returns (ok: bool)
      requires Valid() && (buffer as object) != slots
      modifies this, slots
      ensures 0 < slots.Length <= WORLD_LIMIT && Encodable(types)
      ensures Valid()
      ensures if old(updating) then !ok && Abs() == old(Abs()) else (Abs(), ok) == S.Load(old(Abs()), buffer[..])
      ensures updating == old(updating) && types == old(types)
      ensures updateFailed == (old(updateFailed) || old(updating))
    {
      hide WellFormed, AcceptsWords, DecodedSlots, Words;
      WellFormedIsEncodable(Abs());
      if updating { updateFailed := true; return false; }
      ok := ValidateSnapshot(buffer);
      if !ok { return; }
      var ws := Words(buffer[..]);
      DecodeIsWellFormed(Abs(), ws);
      DecodeInto(slots, ws);
      spawned, count, tick := true, ws[3], ws[4] + TWO32 * ws[5];
    }

    // ----------------------------------------------------------------- types

    /** Binds a copy of the definitions, sorted, once and before any entity or tick. */
    method DefineTypes(defs: seq<EntityType>) returns (ok: bool)
      requires Valid()
      modifies this
      ensures Valid() && updating == old(updating) && updateFailed == old(updateFailed)
      ensures ok <==> !old(updating) && old(types) == [] && !old(spawned) && old(tick) == 0 && AcceptableTypes(defs)
      ensures Abs() == if ok then old(Abs()).(types := SortedById(defs)) else old(Abs())
    {
      hide WellFormed, ValidType, DistinctIds, SortedTypes, HasSolids, SortedById;
      if updating || types != [] || spawned || tick != 0 || defs == [] || |defs| > WORLD_LIMIT { return false; }
      ok := CheckTypes(defs);
      if !ok { return; }
      ghost var w := Abs();
      types := SortTypes(defs);
      BindingKeepsWellFormed(w, types);
      hasSolids := AnySolid(types);
      return true;
    }

    // ---------------------------------------------------------------- update

    /** One call made by a callback, through the public operation it names. */
    method Perform(c: Command, issued: seq<Handle>) returns (issued': seq<Handle>)
      requires Valid() && updating
      modifies this, slots
      ensures Valid() && updating && types == old(types)
      ensures Progress(Abs(), updateFailed, issued') == M.Perform(Progress(old(Abs()), old(updateFailed), issued), c)
      decreases 1, 0
    {
      issued' := issued;
      match c {
        case DoSpawn(v) =>
          var h := Spawn(v);
          if h != 0 { issued' := issued + [h]; }
        case DoRemove(h) => var _ := Remove(h);
        case DoWrite(h, v) => var _ := Write(h, v);
        case DoStep => var _ := Step();
        case DoLoad(bytes) =>
          var buffer := new byte[0];
          var _ := Load(buffer);
        case DoUpdate => var _, _, _ := Update(_ => Turn([], true), true);
        case DoDefineTypes(defs) => var _ := DefineTypes(defs);
      }
    }

    /** Runs the commands of one callback invocation. */
    method PerformTurn(commands: seq<Command>, issued: seq<Handle>) returns (issued': seq<Handle>)
      requires Valid() && updating
      modifies this, slots
      ensures Valid() && updating && types == old(types)
      ensures Progress(Abs(), updateFailed, issued')
           == M.PerformAll(Progress(old(Abs()), old(updateFailed), issued), commands)
      decreases 1, 1
    {
      hide WellFormed, M.Perform;
      issued' := issued;
      ghost var end := M.PerformAll(Progress(Abs(), updateFailed, issued), commands);
      for k := 0 to |commands|
        invariant Valid() && updating && types == old(types)
        invariant end == M.PerformAll(Progress(Abs(), updateFailed, issued'), commands[k..])
      {
        assert commands[k..][1..] == commands[k + 1..];
        issued' := Perform(commands[k], issued');
      }
    }

    /** The handles live now, in slot order. */
    method CollectHandles() returns (handles: seq<Handle>)
      requires slots.Length <= WORLD_LIMIT
      ensures handles == LiveUpTo(slots[..], slots.Length)
    {
      handles := [];
      var h, cursor := Next(0);
      while h != 0
        invariant cursor <= slots.Length && (h == 0 ==> cursor == slots.Length)
        invariant LiveUpTo(slots[..], cursor) == handles + (if h == 0 then [] else [h])
        decreases slots.Length - cursor, h
      {
        handles := handles + [h];
        h, cursor := Next(cursor);
      }
    }

    /** The callback loop of an update, up to the first refusal. */
    method RunCallbacks(handles: seq<Handle>, plan: nat -> Turn)
      returns (ok: bool, visited: seq<Handle>, issued: seq<Handle>)
      requires Valid() && updating && !updateFailed
      modifies this, slots
      ensures Valid() && updating && types == old(types)
      ensures Tour(Abs(), ok, visited, issued) == M.Visit(old(Abs()), handles, plan, [], [])
      decreases 1, 2
    {
      ok, visited, issued := true, [], [];
      ghost var tour := M.Visit(Abs(), handles, plan, [], []);
      for i := 0 to |handles|
        invariant Valid() && updating && ok && !updateFailed && types == old(types)
        invariant tour == M.Visit(Abs(), handles[i..], plan, visited, issued)
      {
        var slot := FindSlot(handles[i]);
        assert handles[i..][1..] == handles[i + 1..];
        if slot < 0 { continue; }
        var turn := plan(|visited|);
        visited := visited + [handles[i]];
        issued := PerformTurn(turn.commands, issued);
        if !turn.ok || updateFailed { return false, visited, issued; }
      }
    }

    /** Puts back the world that `before` was saved from. */
    method Restore(before: array<byte>, spawnedBefore: bool, ghost w: World)
      requires Valid() && !updating && (before as object) != slots
      requires WellFormed(w) && SameShape(w, Abs()) && w.spawned == spawnedBefore
      requires 0 < |w.slots| <= WORLD_LIMIT && Encodable(w.types) && before[..] == Encode(w)
      modifies this, slots
      ensures Valid() && Abs() == w && updating == old(updating)
    {
      hide WellFormed, Encode, Accepts, S.Load;
      LoadOfSave(w, Abs());
      var _ := Load(before);
      spawned := spawnedBefore;
    }

    /** The fixed update. `plan` is what each callback invocation does; `memory` is whether the two buffers
        could be allocated. Also reports the handles called back and the handles spawned meanwhile. */
    method Update(plan: nat -> Turn, memory: bool) returns (ok: bool, visited: seq<Handle>, issued: seq<Handle>)
      requires Valid()
      modifies this, slots
      ensures Valid() && updating == old(updating) && types == old(types)
      ensures old(updating) ==> !ok && Abs() == old(Abs()) && updateFailed
      ensures !old(updating) && !memory ==> !ok && Abs() == old(Abs()) && updateFailed == old(updateFailed)
      ensures !old(updating) && memory ==>
                Tour(Abs(), ok, visited, issued) == M.Update(old(Abs()), plan) && !updateFailed
      decreases if updating then 0 else 2
    {
      hide WellFormed, Encode, LiveUpTo, M.Visit;
      ok, visited, issued := false, [], [];
      if updating { updateFailed := true; return; }
      if !memory { return; }
      ghost var w := Abs();
      WellFormedIsEncodable(w);
      var before := new byte[4 * (HEADER_WORDS + SLOT_WORDS * slots.Length + TYPE_WORDS * |types|)];
      var _ := Save(before);
      var spawnedBefore := spawned;
      var handles := CollectHandles();
      updating, updateFailed := true, false;
      ok, visited, issued := RunCallbacks(handles, plan);
      updating := false;
      if ok { ok := Step(); }
      if !ok { Restore(before, spawnedBefore, w); }
      updateFailed := false;
    }
  }
}
