/**
 The canonical snapshot of an entity world. Every field of the format is a
 little-endian 32-bit word, so a snapshot is treated as a sequence of words and
 tied to bytes by one bijection at the bottom.
 */
module EntitySnapshot {
  import opened Common
  import opened EntityModel

  const HEADER_WORDS := 8
  const SLOT_WORDS := 20
  const REGION_WORDS := 8
  const TYPE_WORDS := 131
  /** The bytes 'Y', 'E', 'W', '1' read as a little-endian word. */
  const MAGIC: u32 := 0x3157_4559
  const VERSION: u32 := 6

  // ------------------------------------------------------- bytes and words

  function ByteOf(v: u32, k: nat): byte
    requires k < 4
  {
    if k == 0 then v % 256 else if k == 1 then v / 256 % 256 else if k == 2 then v / 256 / 256 % 256 else v / 256 / 256 / 256
  }

  function Get32(b: seq<byte>, at: nat): (v: u32)
    requires at + 4 <= |b|
  {
    var b0: int, b1: int, b2: int, b3: int := b[at], b[at + 1], b[at + 2], b[at + 3];
    b0 + 256 * (b1 + 256 * (b2 + 256 * b3))
  }

  function Bytes(ws: seq<u32>): (b: seq<byte>)
    ensures |b| == 4 * |ws|
  {
    seq(4 * |ws|, j requires 0 <= j < 4 * |ws| => ByteOf(ws[j / 4], j % 4))
  }

  function Words(b: seq<byte>): (ws: seq<u32>)
    ensures |ws| == |b| / 4
  {
    seq(|b| / 4, k requires 0 <= k < |b| / 4 => Get32(b, 4 * k))
  }

  lemma DivideByte(b: byte, rest: nat)
    ensures (b + 256 * rest) % 256 == b && (b + 256 * rest) / 256 == rest
  {
  }

  lemma ByteAt(ws: seq<u32>, k: nat, m: nat)
    requires k < |ws| && m < 4
    ensures Bytes(ws)[4 * k + m] == ByteOf(ws[k], m)
  {
    assert (4 * k + m) / 4 == k && (4 * k + m) % 4 == m;
  }

  lemma QuotientAndRemainder(v: nat)
    ensures v == v % 256 + 256 * (v / 256)
  {
  }

  lemma Assembled(v: u32)
    ensures ByteOf(v, 0) + 256 * (ByteOf(v, 1) + 256 * (ByteOf(v, 2) + 256 * ByteOf(v, 3))) == v
  {
    QuotientAndRemainder(v);
    QuotientAndRemainder(v / 256);
    QuotientAndRemainder(v / 256 / 256);
  }

  lemma WordAt(ws: seq<u32>, k: nat)
    requires k < |ws|
    ensures Get32(Bytes(ws), 4 * k) == ws[k]
  {
    hide ByteOf, Bytes;
    ByteAt(ws, k, 0);
    ByteAt(ws, k, 1);
    ByteAt(ws, k, 2);
    ByteAt(ws, k, 3);
    Assembled(ws[k]);
  }

  lemma WordsOfBytes(ws: seq<u32>)
    ensures Words(Bytes(ws)) == ws
  {
    forall k | 0 <= k < |ws| ensures Words(Bytes(ws))[k] == ws[k] {
      WordAt(ws, k);
      hide Get32, Bytes;
    }
  }

  lemma ByteOfGet(b: seq<byte>, at: nat, k: nat)
    requires at + 4 <= |b| && k < 4
    ensures ByteOf(Get32(b, at), k) == b[at + k]
  {
    var b1: int, b2: int, b3: int := b[at + 1], b[at + 2], b[at + 3];
    DivideByte(b[at], b1 + 256 * (b2 + 256 * b3));
    DivideByte(b[at + 1], b2 + 256 * b3);
    DivideByte(b[at + 2], b3);
  }

  lemma BytesOfWords(b: seq<byte>)
    requires |b| % 4 == 0
    ensures Bytes(Words(b)) == b
  {
    forall j | 0 <= j < |b| ensures Bytes(Words(b))[j] == b[j] {
      ByteOfGet(b, 4 * (j / 4), j % 4);
    }
  }

  // ------------------------------------------------- signed and wide fields

  /** The two's-complement word of a signed value, and back. */
  function Unsigned(v: i32): u32 { if v >= 0 then v else v + TWO32 }
  function Signed(v: u32): i32 { if v <= 0x7FFF_FFFF then v else -1 - (U32_MAX - v) }

  // ----------------------------------------------------------------- slots

  function SlotWords(s: Slot): (ws: seq<u32>)
    ensures |ws| == SLOT_WORDS
  {
    var v := s.value;
    [s.generation, if s.active then 1 else 0, v.typeId, Unsigned(v.x), Unsigned(v.y), Unsigned(v.vx), Unsigned(v.vy),
     v.flags, v.animationTick % TWO32, v.animationTick / TWO32, Unsigned(v.scaleX), Unsigned(v.scaleY),
     Unsigned(v.animationRate), v.animationSubtick, v.animationId, Unsigned(v.offsetX), Unsigned(v.offsetY),
     v.tint, v.layer, Unsigned(v.rotation)]
  }

  function DecodeSlot(r: seq<u32>): Slot
    requires |r| == SLOT_WORDS
  {
    Slot(r[0], r[1] != 0, EntityValue(
      r[2], Signed(r[3]), Signed(r[4]), Signed(r[5]), Signed(r[6]), r[7], r[8] + TWO32 * r[9], Signed(r[10]),
      Signed(r[11]), Signed(r[12]), r[13], r[14], Signed(r[15]), Signed(r[16]), r[17], r[18], Signed(r[19])))
  }

  /** What validation asks of one slot record. */
  predicate SlotAccepted(types: seq<EntityType>, r: seq<u32>)
    requires |r| == SLOT_WORDS
  {
    && r[1] <= 1
    && (r[1] == 1 ==> r[0] != 0 && ValidWorldValue(types, DecodeSlot(r).value))
    && (r[1] == 0 ==> forall k :: 2 <= k < SLOT_WORDS ==> r[k] == 0)
  }

  lemma DecodeOfSlotWords(s: Slot)
    ensures DecodeSlot(SlotWords(s)) == s
  {
  }

  lemma SlotWordsOfDecode(r: seq<u32>)
    requires |r| == SLOT_WORDS && r[1] <= 1
    ensures SlotWords(DecodeSlot(r)) == r
  {
  }

  lemma AcceptedSlotIsValid(types: seq<EntityType>, r: seq<u32>)
    requires |r| == SLOT_WORDS
    ensures SlotAccepted(types, r) <==> r[1] <= 1 && ValidSlot(types, DecodeSlot(r))
  {
    if r[1] == 0 && DecodeSlot(r).value == ZERO_VALUE {
      SlotWordsOfDecode(r);
      assert DecodeSlot(r) == Slot(r[0], false, ZERO_VALUE);
    }
  }

  // ----------------------------------------------------------------- types

  function RoleWord(r: Role): u32 {
    match r case Body => 1 case Sensor => 2 case Hitbox => 3 case Hurtbox => 4 case Solid => 5
  }

  function RegionWords(r: EntityRegion): (ws: seq<u32>)
    ensures |ws| == REGION_WORDS
  {
    [r.id, RoleWord(r.role), r.layer as int, r.mask as int,
     Unsigned(r.x), Unsigned(r.y), Unsigned(r.width), Unsigned(r.height)]
  }

  function RegionsWords(rs: seq<EntityRegion>): (ws: seq<u32>)
    ensures |ws| == REGION_WORDS * |rs|
  {
    if rs == [] then [] else RegionsWords(rs[..|rs| - 1]) + RegionWords(rs[|rs| - 1])
  }

  function Zeros(n: nat): (ws: seq<u32>)
    ensures |ws| == n
  {
    seq(n, _ => 0)
  }

  function TypeWords(t: EntityType): (ws: seq<u32>)
    requires |t.regions| <= REGIONS_MAX
    ensures |ws| == TYPE_WORDS
  {
    [t.id, |t.regions|, t.animationCount] + RegionsWords(t.regions) + Zeros(REGION_WORDS * (REGIONS_MAX - |t.regions|))
  }

  // -------------------------------------------------------------- snapshot

  function SlotsWords(slots: seq<Slot>): (ws: seq<u32>)
    ensures |ws| == SLOT_WORDS * |slots|
  {
    if slots == [] then [] else SlotsWords(slots[..|slots| - 1]) + SlotWords(slots[|slots| - 1])
  }

  predicate Encodable(types: seq<EntityType>) {
    && |types| <= WORLD_LIMIT
    && forall i :: 0 <= i < |types| ==> |types[i].regions| <= REGIONS_MAX
  }

  function TypesWords(types: seq<EntityType>): (ws: seq<u32>)
    requires Encodable(types)
    ensures |ws| == TYPE_WORDS * |types|
  {
    if types == [] then [] else TypesWords(types[..|types| - 1]) + TypeWords(types[|types| - 1])
  }

  function HeaderWords(capacity: u32, count: u32, tick: u64, typeCount: u32): (ws: seq<u32>)
    ensures |ws| == HEADER_WORDS
  {
    [MAGIC, VERSION, capacity, count, tick % TWO32, tick / TWO32, typeCount, 0]
  }

  function SnapshotWords(w: World): (ws: seq<u32>)
    requires |w.slots| <= WORLD_LIMIT && Encodable(w.types)
    ensures |ws| == WordCount(w)
  {
    HeaderWords(|w.slots|, w.count, w.tick, |w.types|) + SlotsWords(w.slots) + TypesWords(w.types)
  }

  function WordCount(w: World): nat {
    HEADER_WORDS + SLOT_WORDS * |w.slots| + TYPE_WORDS * |w.types|
  }

  function Encode(w: World): seq<byte>
    requires |w.slots| <= WORLD_LIMIT && Encodable(w.types)
  {
    Bytes(SnapshotWords(w))
  }

  function SlotRecord(ws: seq<u32>, i: nat): (r: seq<u32>)
    requires HEADER_WORDS + SLOT_WORDS * (i + 1) <= |ws|
    ensures |r| == SLOT_WORDS
  {
    ws[HEADER_WORDS + SLOT_WORDS * i..][..SLOT_WORDS]
  }

  function DecodedSlots(ws: seq<u32>, n: nat): (slots: seq<Slot>)
    requires HEADER_WORDS + SLOT_WORDS * n <= |ws|
    ensures |slots| == n
  {
    seq(n, i requires 0 <= i < n => DecodeSlot(SlotRecord(ws, i)))
  }

  /** The slot array and the types region of a word sequence shaped like a snapshot of w. */
  function TypesPart(w: World, ws: seq<u32>): seq<u32>
    requires |ws| == WordCount(w)
  {
    ws[HEADER_WORDS + SLOT_WORDS * |w.slots|..]
  }

  predicate HeaderAccepted(ws: seq<u32>, capacity: nat, typeCount: nat)
    requires |ws| >= HEADER_WORDS
  {
    && ws[0] == MAGIC && ws[1] == VERSION
    && ws[2] == capacity && ws[3] <= capacity && ws[6] == typeCount && ws[7] == 0
  }

  /** The whole of validation, on words. */
  predicate AcceptsWords(w: World, ws: seq<u32>)
    requires 0 < |w.slots| <= WORLD_LIMIT && Encodable(w.types)
  {
    && |ws| == WordCount(w)
    && HeaderAccepted(ws, |w.slots|, |w.types|)
    && TypesPart(w, ws) == TypesWords(w.types)
    && (forall i :: 0 <= i < |w.slots| ==> SlotAccepted(w.types, SlotRecord(ws, i)))
    && ws[3] == |LiveUpTo(DecodedSlots(ws, |w.slots|), |w.slots|)|
  }

  predicate Accepts(w: World, b: seq<byte>)
    requires 0 < |w.slots| <= WORLD_LIMIT && Encodable(w.types)
  {
    |b| == 4 * WordCount(w) && AcceptsWords(w, Words(b))
  }

  function DecodeWords(w: World, ws: seq<u32>): World
    requires |ws| == WordCount(w)
  {
    World(DecodedSlots(ws, |w.slots|), ws[3], ws[4] + TWO32 * ws[5], w.types, true)
  }

  function Decode(w: World, b: seq<byte>): World
    requires |b| == 4 * WordCount(w)
  {
    DecodeWords(w, Words(b))
  }

  function Load(w: World, b: seq<byte>): (World, bool)
    requires 0 < |w.slots| <= WORLD_LIMIT && Encodable(w.types)
  {
    if Accepts(w, b) then (Decode(w, b), true) else (w, false)
  }

  // ------------------------------------------------------------- bijection

  lemma {:induction false} SlotsWordsAt(slots: seq<Slot>, i: nat)
    requires i < |slots|
    ensures SlotsWords(slots)[SLOT_WORDS * i..][..SLOT_WORDS] == SlotWords(slots[i])
  {
    var last := |slots| - 1;
    var rest := SlotsWords(slots[..last]);
    if i == last {
      assert SlotsWords(slots)[SLOT_WORDS * i..] == SlotWords(slots[last]);
    } else {
      SlotsWordsAt(slots[..last], i);
      assert SlotsWords(slots)[SLOT_WORDS * i..][..SLOT_WORDS] == rest[SLOT_WORDS * i..][..SLOT_WORDS];
    }
  }

  lemma {:induction false} SlotsWordsFromRecords(ws: seq<u32>, slots: seq<Slot>)
    requires |ws| == SLOT_WORDS * |slots|
    requires forall i :: 0 <= i < |slots| ==> ws[SLOT_WORDS * i..][..SLOT_WORDS] == SlotWords(slots[i])
    ensures SlotsWords(slots) == ws
  {
    if slots != [] {
      var last := |slots| - 1;
      var front := ws[..SLOT_WORDS * last];
      forall i | 0 <= i < last ensures front[SLOT_WORDS * i..][..SLOT_WORDS] == SlotWords(slots[..last][i]) {
        assert front[SLOT_WORDS * i..][..SLOT_WORDS] == ws[SLOT_WORDS * i..][..SLOT_WORDS];
      }
      SlotsWordsFromRecords(front, slots[..last]);
      assert ws[SLOT_WORDS * last..][..SLOT_WORDS] == ws[SLOT_WORDS * last..];
      assert ws == front + ws[SLOT_WORDS * last..];
    }
  }

  lemma RecordOfSnapshot(w: World, i: nat)
    requires |w.slots| <= WORLD_LIMIT && Encodable(w.types) && i < |w.slots|
    ensures SlotRecord(SnapshotWords(w), i) == SlotWords(w.slots[i])
  {
    SlotsWordsAt(w.slots, i);
    var ws := SnapshotWords(w);
    assert ws[HEADER_WORDS + SLOT_WORDS * i..][..SLOT_WORDS] == SlotsWords(w.slots)[SLOT_WORDS * i..][..SLOT_WORDS];
  }

  lemma WellFormedIsEncodable(w: World)
    requires WellFormed(w)
    ensures 0 < |w.slots| <= WORLD_LIMIT && Encodable(w.types) && SortedTypes(w.types)
  {
    forall i | 0 <= i < |w.types| ensures |w.types[i].regions| <= REGIONS_MAX { assert ValidType(w.types[i]); }
  }

  /** Two worlds a snapshot of one of which may be loaded into the other. */
  predicate SameShape(a: World, b: World) {
    |a.slots| == |b.slots| && a.types == b.types
  }

  lemma SlotsOfSnapshot(w: World)
    requires |w.slots| <= WORLD_LIMIT && Encodable(w.types)
    ensures DecodedSlots(SnapshotWords(w), |w.slots|) == w.slots
  {
    forall i | 0 <= i < |w.slots| ensures DecodedSlots(SnapshotWords(w), |w.slots|)[i] == w.slots[i] {
      RecordOfSnapshot(w, i);
      DecodeOfSlotWords(w.slots[i]);
    }
  }

  lemma RecordsAccepted(w: World)
    requires |w.slots| <= WORLD_LIMIT && Encodable(w.types)
    requires forall i :: 0 <= i < |w.slots| ==> ValidSlot(w.types, w.slots[i])
    ensures forall i :: 0 <= i < |w.slots| ==> SlotAccepted(w.types, SlotRecord(SnapshotWords(w), i))
  {
    forall i | 0 <= i < |w.slots| ensures SlotAccepted(w.types, SlotRecord(SnapshotWords(w), i)) {
      RecordOfSnapshot(w, i);
      DecodeOfSlotWords(w.slots[i]);
      AcceptedSlotIsValid(w.types, SlotWords(w.slots[i]));
    }
  }

  lemma HeaderOfSnapshot(w: World)
    requires |w.slots| <= WORLD_LIMIT && Encodable(w.types)
    ensures var ws := SnapshotWords(w);
            && ws[..HEADER_WORDS] == HeaderWords(|w.slots|, w.count, w.tick, |w.types|)
            && ws[HEADER_WORDS + SLOT_WORDS * |w.slots|..] == TypesWords(w.types)
  {
  }

  lemma SnapshotIsAccepted(w: World, into: World)
    requires WellFormed(w) && SameShape(w, into) && Encodable(w.types)
    ensures AcceptsWords(into, SnapshotWords(w))
    ensures DecodeWords(into, SnapshotWords(w)) == w.(spawned := true)
  {
    hide SlotsWords, TypesWords, SlotAccepted, DecodedSlots, SlotRecord;
    var ws := SnapshotWords(w);
    HeaderOfSnapshot(w);
    SlotsOfSnapshot(w);
    RecordsAccepted(w);
    var header := HeaderWords(|w.slots|, w.count, w.tick, |w.types|);
    forall k | 0 <= k < HEADER_WORDS ensures ws[k] == header[k] { assert ws[k] == ws[..HEADER_WORDS][k]; }
  }

  /** Loading a saved world into any world of the same shape reproduces it; only the latch that forbids
      binding types afterwards is set. */
  lemma LoadOfSave(w: World, into: World)
    requires WellFormed(w) && SameShape(w, into)
    ensures 0 < |w.slots| <= WORLD_LIMIT && Encodable(w.types)
    ensures Load(into, Encode(w)) == (w.(spawned := true), true)
  {
    WellFormedIsEncodable(w);
    WordsOfBytes(SnapshotWords(w));
    SnapshotIsAccepted(w, into);
  }

  lemma AcceptedSlotsAreValid(w: World, ws: seq<u32>)
    requires 0 < |w.slots| <= WORLD_LIMIT && Encodable(w.types) && AcceptsWords(w, ws)
    ensures forall i :: 0 <= i < |w.slots| ==> ValidSlot(w.types, DecodedSlots(ws, |w.slots|)[i])
  {
    forall i | 0 <= i < |w.slots| ensures ValidSlot(w.types, DecodedSlots(ws, |w.slots|)[i]) {
      AcceptedSlotIsValid(w.types, SlotRecord(ws, i));
    }
  }

  lemma RecordInBody(ws: seq<u32>, n: nat, i: nat)
    requires i < n && |ws| >= HEADER_WORDS + SLOT_WORDS * n
    ensures ws[HEADER_WORDS..HEADER_WORDS + SLOT_WORDS * n][SLOT_WORDS * i..][..SLOT_WORDS] == SlotRecord(ws, i)
  {
    var body := ws[HEADER_WORDS..HEADER_WORDS + SLOT_WORDS * n];
    forall j | 0 <= j < SLOT_WORDS ensures body[SLOT_WORDS * i..][..SLOT_WORDS][j] == SlotRecord(ws, i)[j] {
      assert body[SLOT_WORDS * i + j] == ws[HEADER_WORDS + SLOT_WORDS * i + j];
    }
  }

  lemma AcceptedSlotsEncodeBack(w: World, ws: seq<u32>)
    requires 0 < |w.slots| <= WORLD_LIMIT && Encodable(w.types) && AcceptsWords(w, ws)
    ensures SlotsWords(DecodedSlots(ws, |w.slots|)) == ws[HEADER_WORDS..HEADER_WORDS + SLOT_WORDS * |w.slots|]
  {
    hide ValidWorldValue, TypesWords, LiveUpTo, DecodeSlot, SlotWords, HeaderAccepted;
    var slots := DecodedSlots(ws, |w.slots|);
    var body := ws[HEADER_WORDS..HEADER_WORDS + SLOT_WORDS * |w.slots|];
    forall i | 0 <= i < |slots| ensures body[SLOT_WORDS * i..][..SLOT_WORDS] == SlotWords(slots[i]) {
      SlotWordsOfDecode(SlotRecord(ws, i));
      RecordInBody(ws, |slots|, i);
    }
    SlotsWordsFromRecords(body, slots);
  }

  lemma HeaderEncodesBack(ws: seq<u32>, capacity: u32, typeCount: u32)
    requires |ws| >= HEADER_WORDS && HeaderAccepted(ws, capacity, typeCount)
    ensures ws[..HEADER_WORDS] == HeaderWords(capacity, ws[3], ws[4] + TWO32 * ws[5], typeCount)
  {
  }

  lemma InThreeParts(ws: seq<u32>, a: nat, b: nat)
    requires a <= b <= |ws|
    ensures ws == ws[..a] + ws[a..b] + ws[b..]
  {
  }

  lemma SaveOfDecode(w: World, ws: seq<u32>)
    requires 0 < |w.slots| <= WORLD_LIMIT && Encodable(w.types) && AcceptsWords(w, ws)
    ensures SnapshotWords(DecodeWords(w, ws)) == ws
  {
    hide DecodedSlots, SlotsWords, TypesWords, SlotAccepted, SlotRecord, LiveUpTo, HeaderAccepted, HeaderWords;
    AcceptedSlotsEncodeBack(w, ws);
    HeaderEncodesBack(ws, |w.slots|, |w.types|);
    InThreeParts(ws, HEADER_WORDS, HEADER_WORDS + SLOT_WORDS * |w.slots|);
  }

  lemma DecodeIsWellFormed(w: World, ws: seq<u32>)
    requires WellFormed(w) && Encodable(w.types) && AcceptsWords(w, ws)
    ensures WellFormed(DecodeWords(w, ws))
  {
    AcceptedSlotsAreValid(w, ws);
  }

  /** Whatever validation accepts is the saved form of a well-formed world: loading it and saving again gives
      back every byte. */
  lemma SaveOfLoad(w: World, b: seq<byte>)
    requires WellFormed(w) && Encodable(w.types) && Accepts(w, b)
    ensures WellFormed(Decode(w, b))
    ensures Encode(Decode(w, b)) == b
  {
    DecodeIsWellFormed(w, Words(b));
    SaveOfDecode(w, Words(b));
    BytesOfWords(b);
  }

  /** The accepted byte strings are exactly the snapshots of well-formed worlds of this shape. */
  lemma AcceptedAreTheSnapshots(w: World, b: seq<byte>)
    requires WellFormed(w)
    ensures 0 < |w.slots| <= WORLD_LIMIT && Encodable(w.types)
    ensures Accepts(w, b) <==> exists w' :: WellFormed(w') && SameShape(w', w) && Encode(w') == b
  {
    WellFormedIsEncodable(w);
    if Accepts(w, b) {
      SaveOfLoad(w, b);
      assert SameShape(Decode(w, b), w);
    }
    if w' :| WellFormed(w') && SameShape(w', w) && Encode(w') == b {
      LoadOfSave(w', w);
    }
  }

  // ------------------------------------------------------------ the format

  /** The little-endian number of four bytes. */
  function Number(b: seq<byte>, at: nat): nat
    requires at + 4 <= |b|
  {
    var b0: int, b1: int, b2: int, b3: int := b[at], b[at + 1], b[at + 2], b[at + 3];
    b0 + 0x100 * b1 + 0x1_0000 * b2 + 0x100_0000 * b3
  }

  lemma NumberAt(ws: seq<u32>, k: nat)
    requires k < |ws|
    ensures Number(Bytes(ws), 4 * k) == ws[k]
  {
    WordAt(ws, k);
    hide Bytes;
  }

  lemma HeaderNumberAt(w: World, k: nat)
    requires |w.slots| <= WORLD_LIMIT && Encodable(w.types) && k < HEADER_WORDS
    ensures |Encode(w)| == 32 + 80 * |w.slots| + 524 * |w.types|
    ensures Number(Encode(w), 4 * k) == HeaderWords(|w.slots|, w.count, w.tick, |w.types|)[k]
  {
    var ws := SnapshotWords(w);
    HeaderOfSnapshot(w);
    assert ws[k] == ws[..HEADER_WORDS][k];
    NumberAt(ws, k);
    hide SnapshotWords, Number, Bytes;
  }

  /** The eight numbers at the front of a snapshot, byte by byte; the first spells YEW1. */
  lemma HeaderLayout(w: World)
    requires |w.slots| <= WORLD_LIMIT && Encodable(w.types)
    ensures var b := Encode(w);
            && |b| == 32 + 80 * |w.slots| + 524 * |w.types|
            && Number(b, 0) == 0x59 + 0x100 * 0x45 + 0x1_0000 * 0x57 + 0x100_0000 * 0x31
            && Number(b, 4) == 6 && Number(b, 8) == |w.slots| && Number(b, 12) == w.count
            && Number(b, 16) + TWO32 * Number(b, 20) == w.tick
            && Number(b, 24) == |w.types| && Number(b, 28) == 0
  {
    hide Encode, Number, Encodable;
    HeaderNumberAt(w, 0);
    HeaderNumberAt(w, 1);
    HeaderNumberAt(w, 2);
    HeaderNumberAt(w, 3);
    HeaderNumberAt(w, 4);
    HeaderNumberAt(w, 5);
    HeaderNumberAt(w, 6);
    HeaderNumberAt(w, 7);
  }

  lemma SlotNumberAt(w: World, i: nat, k: nat)
    requires |w.slots| <= WORLD_LIMIT && Encodable(w.types) && i < |w.slots| && k < SLOT_WORDS
    ensures |Encode(w)| == 4 * WordCount(w) && Number(Encode(w), 32 + 80 * i + 4 * k) == SlotWords(w.slots[i])[k]
  {
    hide SnapshotWords, SlotWords, Number, Bytes;
    var ws := SnapshotWords(w);
    RecordOfSnapshot(w, i);
    assert SlotRecord(ws, i)[k] == ws[HEADER_WORDS + SLOT_WORDS * i + k];
    NumberAt(ws, HEADER_WORDS + SLOT_WORDS * i + k);
  }

  /** The record of a slot, byte by byte; signed fields are two's complement, the animation tick takes two words. */
  lemma SlotLayout(w: World, i: nat)
    requires |w.slots| <= WORLD_LIMIT && Encodable(w.types) && i < |w.slots|
    ensures |Encode(w)| >= 32 + 80 * (i + 1)
    ensures var (b, at, s) := (Encode(w), 32 + 80 * i, w.slots[i]);
            var v := s.value;
            && Number(b, at) == s.generation && Number(b, at + 4) == (if s.active then 1 else 0)
            && Number(b, at + 8) == v.typeId
            && Number(b, at + 12) == v.x % TWO32 && Number(b, at + 16) == v.y % TWO32
            && Number(b, at + 20) == v.vx % TWO32 && Number(b, at + 24) == v.vy % TWO32
            && Number(b, at + 28) == v.flags
            && Number(b, at + 32) + TWO32 * Number(b, at + 36) == v.animationTick
            && Number(b, at + 40) == v.scaleX % TWO32 && Number(b, at + 44) == v.scaleY % TWO32
            && Number(b, at + 48) == v.animationRate % TWO32 && Number(b, at + 52) == v.animationSubtick
            && Number(b, at + 56) == v.animationId
            && Number(b, at + 60) == v.offsetX % TWO32 && Number(b, at + 64) == v.offsetY % TWO32
            && Number(b, at + 68) == v.tint && Number(b, at + 72) == v.layer
            && Number(b, at + 76) == v.rotation % TWO32
  {
    hide Encode, Number, Encodable;
    SlotNumberAt(w, i, 0);
    SlotNumberAt(w, i, 1);
    SlotNumberAt(w, i, 2);
    SlotNumberAt(w, i, 3);
    SlotNumberAt(w, i, 4);
    SlotNumberAt(w, i, 5);
    SlotNumberAt(w, i, 6);
    SlotNumberAt(w, i, 7);
    SlotNumberAt(w, i, 8);
    SlotNumberAt(w, i, 9);
    SlotNumberAt(w, i, 10);
    SlotNumberAt(w, i, 11);
    SlotNumberAt(w, i, 12);
    SlotNumberAt(w, i, 13);
    SlotNumberAt(w, i, 14);
    SlotNumberAt(w, i, 15);
    SlotNumberAt(w, i, 16);
    SlotNumberAt(w, i, 17);
    SlotNumberAt(w, i, 18);
    SlotNumberAt(w, i, 19);
  }
}
