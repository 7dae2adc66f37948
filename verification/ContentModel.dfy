/**
 Tile definitions, the keys that name them, and the order in which they are kept.
 Strings are C strings: none contains the character 0.
 */
module ContentModel {
  import opened Common
  import opened Sorting

  const OWNER_CAPACITY := 48
  const LOCAL_ID_CAPACITY := 48
  const KEY_CAPACITY := OWNER_CAPACITY + LOCAL_ID_CAPACITY + 1
  const TILES_PER_OWNER := 4096
  const TILES_GLOBAL := 65535

  datatype AnimationMode = Loop | PingPong | Once

  /** How a sprite is placed and coloured. */
  datatype Look = Look(
    offsetX: real, offsetY: real, scaleX: real, scaleY: real, angle: real,
    red: real, green: real, blue: real, alpha: real)

  /** What a definition says beside its name, already checked field by field. */
  datatype Body = Body(
    native: char, sheet: string, spriteIndex: int, frameCount: nat, frameTicks: nat, animation: AnimationMode,
    layer: int, look: Look, mirrorWithRoom: bool, randomPhase: bool, underlay: bool,
    collision: nat, forceMode: nat, forceAxes: nat, forceX: real, forceY: real, maxSpeedX: real, maxSpeedY: real)

  datatype Tile = Tile(owner: string, localId: string, key: string, body: Body)

  // ------------------------------------------------------------------- names

  function Lower(c: char): char {
    if 'A' <= c <= 'Z' then ((c as int) - ('A' as int) + ('a' as int)) as char else c
  }

  predicate IsIdChar(c: char) {
    'a' <= c <= 'z' || '0' <= c <= '9' || c == '_' || c == '-' || c == '.'
  }

  function Lowered(s: string): (r: string)
    ensures |r| == |s|
  {
    seq(|s|, i requires 0 <= i < |s| => Lower(s[i]))
  }

  /** A name part in lower case, if it is nonempty, fits, has only name characters and begins with no '.' or '-'. */
  function Normalize(input: string, capacity: nat): (r: Option<string>)
    ensures r.Some? ==> 0 < |r.value| < capacity && forall i :: 0 <= i < |r.value| ==> IsIdChar(r.value[i])
  {
    var low := Lowered(input);
    if input == "" || |input| >= capacity then None
    else if exists i :: 0 <= i < |low| && !IsIdChar(low[i]) then None
    else if low[0] == '.' || low[0] == '-' then None
    else Some(low)
  }

  function MakeKey(owner: string, localId: string): Option<string> {
    match (Normalize(owner, OWNER_CAPACITY), Normalize(localId, LOCAL_ID_CAPACITY))
    case (Some(o), Some(i)) => if |o| + 1 + |i| >= KEY_CAPACITY then None else Some(o + ":" + i)
    case _ => None
  }

  /** Where the first colon is, |s| if there is none. */
  function ColonAt(s: string): (n: nat)
    ensures n <= |s| && (n < |s| ==> s[n] == ':') && forall i :: 0 <= i < n ==> s[i] != ':'
  {
    if s == "" || s[0] == ':' then 0 else 1 + ColonAt(s[1..])
  }

  /** A key given as owner:id, normalized. */
  function NormalizeKey(key: string): Option<string> {
    var n := ColonAt(key);
    if n == |key| || ColonAt(key[n + 1..]) < |key| - n - 1 then None
    else if n == 0 || n >= OWNER_CAPACITY || |key| - n - 1 >= LOCAL_ID_CAPACITY then None
    else MakeKey(key[..n], key[n + 1..])
  }

  lemma NormalizeIsStable(input: string, capacity: nat)
    ensures var r := Normalize(input, capacity); r.Some? ==> Normalize(r.value, capacity) == r
  {
    var r := Normalize(input, capacity);
    if r.Some? { assert Lowered(r.value) == r.value; }
  }

  lemma ColonIsFound(owner: string, localId: string)
    requires forall i :: 0 <= i < |owner| ==> owner[i] != ':'
    ensures ColonAt(owner + ":" + localId) == |owner|
  {
    var key := owner + ":" + localId;
    assert key[|owner|] == ':';
    assert forall i :: 0 <= i < |owner| ==> key[i] == owner[i];
  }

  /** A key determines the owner and the id it was made of, up to the case in which they were written. */
  lemma KeysAreInjective(owner: string, localId: string, owner': string, localId': string)
    requires MakeKey(owner, localId).Some? && MakeKey(owner, localId) == MakeKey(owner', localId')
    ensures Normalize(owner, OWNER_CAPACITY) == Normalize(owner', OWNER_CAPACITY)
    ensures Normalize(localId, LOCAL_ID_CAPACITY) == Normalize(localId', LOCAL_ID_CAPACITY)
  {
    var (o, i) := (Normalize(owner, OWNER_CAPACITY).value, Normalize(localId, LOCAL_ID_CAPACITY).value);
    var (o', i') := (Normalize(owner', OWNER_CAPACITY).value, Normalize(localId', LOCAL_ID_CAPACITY).value);
    PartsAreUnique(o, i, o', i');
  }

  lemma PartsAreUnique(o: string, i: string, o': string, i': string)
    requires (forall k :: 0 <= k < |o| ==> IsIdChar(o[k])) && forall k :: 0 <= k < |o'| ==> IsIdChar(o'[k])
    requires o + ":" + i == o' + ":" + i'
    ensures o == o' && i == i'
  {
    ColonIsFound(o, i);
    ColonIsFound(o', i');
    var key := o + ":" + i;
    assert o == key[..|o|] && o' == key[..|o|];
    assert i == key[|o| + 1..] && i' == key[|o| + 1..];
  }

  /** A normalized name always fits the key buffer. */
  lemma KeysFit(owner: string, localId: string)
    ensures MakeKey(owner, localId).Some?
       <==> Normalize(owner, OWNER_CAPACITY).Some? && Normalize(localId, LOCAL_ID_CAPACITY).Some?
  {
  }

  /** The keys that lookups accept are those made of an owner and an id, and a made key is its own normal form. */
  lemma NormalKeys(owner: string, localId: string)
    requires MakeKey(owner, localId).Some?
    ensures NormalizeKey(owner + ":" + localId) == MakeKey(owner, localId)
    ensures NormalizeKey(MakeKey(owner, localId).value) == MakeKey(owner, localId)
  {
    var (o, i) := (Normalize(owner, OWNER_CAPACITY).value, Normalize(localId, LOCAL_ID_CAPACITY).value);
    NormalizeIsStable(owner, OWNER_CAPACITY);
    NormalizeIsStable(localId, LOCAL_ID_CAPACITY);
    NormalKeySplits(o, i);
    forall k | 0 <= k < |owner| ensures owner[k] != ':' { assert IsIdChar(Lowered(owner)[k]); }
    forall k | 0 <= k < |localId| ensures localId[k] != ':' { assert IsIdChar(Lowered(localId)[k]); }
    NormalKeySplits(owner, localId);
  }

  lemma NormalKeySplits(owner: string, localId: string)
    requires 0 < |owner| < OWNER_CAPACITY && 0 < |localId| < LOCAL_ID_CAPACITY
    requires (forall k :: 0 <= k < |owner| ==> owner[k] != ':') && forall k :: 0 <= k < |localId| ==> localId[k] != ':'
    ensures NormalizeKey(owner + ":" + localId) == MakeKey(owner, localId)
  {
    var key := owner + ":" + localId;
    ColonIsFound(owner, localId);
    assert key[..|owner|] == owner && key[|owner| + 1..] == localId;
    var n := ColonAt(localId);
    hide Normalize;
  }

  // ------------------------------------------------------------------- order

  /** strcmp: negative, zero or positive. */
  function Compare(a: string, b: string): int {
    if a == "" && b == "" then 0
    else if a == "" then -1
    else if b == "" then 1
    else if a[0] != b[0] then a[0] as int - b[0] as int
    else Compare(a[1..], b[1..])
  }

  predicate Before(a: string, b: string) { Compare(a, b) < 0 }

  lemma {:induction false} CompareIsEquality(a: string, b: string)
    ensures Compare(a, b) == 0 <==> a == b
  {
    if a != "" && b != "" && a[0] == b[0] {
      CompareIsEquality(a[1..], b[1..]);
      assert a == [a[0]] + a[1..] && b == [b[0]] + b[1..];
    }
  }

  lemma {:induction false} CompareIsAntisymmetric(a: string, b: string)
    ensures Compare(a, b) == -Compare(b, a)
  {
    if a != "" && b != "" && a[0] == b[0] { CompareIsAntisymmetric(a[1..], b[1..]); }
  }

  lemma {:induction false} CompareIsTransitive(a: string, b: string, c: string)
    requires Compare(a, b) <= 0 && Compare(b, c) <= 0
    ensures Compare(a, c) <= 0 && (Compare(a, b) < 0 || Compare(b, c) < 0 ==> Compare(a, c) < 0)
  {
    if a != "" && b != "" && c != "" && a[0] == b[0] == c[0] { CompareIsTransitive(a[1..], b[1..], c[1..]); }
  }

  /** The order of tiles by key; tiles of one key tie. */
  predicate NotAfter(a: Tile, b: Tile) { Compare(a.key, b.key) <= 0 }

  function KeyOf(t: Tile): string { t.key }

  function SortedByKey(tiles: seq<Tile>): (r: seq<Tile>)
    ensures multiset(r) == multiset(tiles) && |r| == |tiles|
  {
    Sorted(tiles, NotAfter)
  }

  predicate StrictlySorted(tiles: seq<Tile>) {
    forall i, j :: 0 <= i < j < |tiles| ==> Before(tiles[i].key, tiles[j].key)
  }

  lemma KeyOrderIsTotal()
    ensures TotalOrder(NotAfter)
  {
    forall a: Tile, b: Tile ensures NotAfter(a, b) || NotAfter(b, a) { CompareIsAntisymmetric(a.key, b.key); }
    forall a: Tile, b: Tile, c: Tile | NotAfter(a, b) && NotAfter(b, c) ensures NotAfter(a, c) {
      CompareIsTransitive(a.key, b.key, c.key);
    }
  }

  /** No two tiles, wherever they stand, share a key. */
  predicate DistinctKeys(tiles: seq<Tile>) {
    forall i, j :: 0 <= i < j < |tiles| ==> tiles[i].key != tiles[j].key
  }

  /** Sorting puts tiles in key order and keeps distinct keys distinct. */
  lemma SortingByKey(tiles: seq<Tile>)
    ensures Ordered(SortedByKey(tiles), NotAfter)
    ensures DistinctKeys(tiles) ==> DistinctKeys(SortedByKey(tiles))
    ensures forall t :: t in SortedByKey(tiles) <==> t in tiles
  {
    KeyOrderIsTotal();
    hide NotAfter, Sorted;
    SortedIsOrdered(tiles, NotAfter);
    if DistinctKeys(tiles) { SortedKeepsDistinct(tiles, NotAfter, KeyOf); }
  }

  /** Sorting tiles with distinct keys gives a strictly sorted sequence of the same tiles. */
  lemma SortedIsStrict(tiles: seq<Tile>)
    requires DistinctKeys(tiles)
    ensures StrictlySorted(SortedByKey(tiles))
    ensures forall t :: t in SortedByKey(tiles) <==> t in tiles
  {
    hide Compare, SortedByKey;
    SortingByKey(tiles);
    var r := SortedByKey(tiles);
    forall i, j | 0 <= i < j < |r| ensures Before(r[i].key, r[j].key) {
      assert NotAfter(r[i], r[j]);
      CompareIsEquality(r[i].key, r[j].key);
    }
  }

  /** A strictly sorted sequence is determined by its elements. */
  lemma {:induction false} StrictlySortedIsUnique(a: seq<Tile>, b: seq<Tile>)
    requires StrictlySorted(a) && StrictlySorted(b)
    requires forall t :: t in a <==> t in b
    ensures a == b
    decreases |a|
  {
    hide Compare;
    if a == [] {
      if b != [] { FirstIsLeast(b, a); }
    } else {
      FirstIsLeast(a, b);
      forall t ensures t in a[1..] <==> t in b[1..] { RestLacksFirst(a, t); RestLacksFirst(b, t); }
      StrictlySortedIsUnique(a[1..], b[1..]);
      assert a == [a[0]] + a[1..] && b == [b[0]] + b[1..];
    }
  }

  lemma FirstIsLeast(a: seq<Tile>, b: seq<Tile>)
    requires StrictlySorted(a) && StrictlySorted(b) && a != []
    requires forall t :: t in a <==> t in b
    ensures b != [] && a[0] == b[0]
  {
    hide Compare;
    assert a[0] in a && a[0] in b;
    assert b[0] in b && b[0] in a;
    var i :| 0 <= i < |a| && a[i] == b[0];
    var j :| 0 <= j < |b| && b[j] == a[0];
    if i > 0 && j > 0 { CompareIsAntisymmetric(a[0].key, a[i].key); }
  }

  lemma RestLacksFirst(a: seq<Tile>, t: Tile)
    requires StrictlySorted(a) && a != []
    ensures t in a[1..] <==> t in a && t != a[0]
  {
    hide Compare;
    if t in a[1..] {
      var i :| 0 <= i < |a| - 1 && a[1..][i] == t;
      CompareIsEquality(a[0].key, a[i + 1].key);
    }
    if t in a && t != a[0] {
      var i :| 0 <= i < |a| && a[i] == t;
      assert a[1..][i - 1] == t;
    }
  }
}
