/**
 Binding the content tiles of placed rooms to the cells of the live map, and the fixed
 layout in which every room but the first appears twice, once mirrored.
 */
module RoomBinding {
  import opened Common
  import opened ContentModel
  import opened RoomGeometry
  import R = ContentRegistry
  import T = ContentTiles

  // -------------------------------------------------- what should be bound

  /** The key the author gave a room cell, if any. */
  function AuthoredKey(l: Layout, room: nat, x: nat, y: nat): Option<string>
    requires ValidLayout(l) && room < |l.rooms| && x < l.rooms[room].width && y < l.rooms[room].height
  {
    assert ValidRoom(l.rooms[room]);
    var a := l.rooms[room].aliases[y * ROW + x];
    if a == 0 || a > |l.tiles| then None else Some(l.tiles[a - 1].key)
  }

  /** The authored key that belongs to a covered map cell. */
  function KeyOfCell(l: Layout, k: nat, cx: int, cy: int): Option<string>
    requires ValidLayout(l) && Covers(l, k, cx, cy)
  {
    assert PlacedInside(l, k);
    var (p, r) := (l.placed[k], l.rooms[l.placed[k].source]);
    AuthoredKey(l, p.source, SourceColumn(r.width, p.mirrored, cx - p.x), cy - p.y)
  }

  /** It is the key of the very cell that the rebuild plots there. */
  lemma KeyOfPlottedCell(l: Layout, k: nat, cx: int, cy: int)
    requires ValidLayout(l) && Covers(l, k, cx, cy)
    ensures |l.rooms[l.placed[k].source].aliases| == ROW * ROWS
    ensures var a := l.rooms[l.placed[k].source].aliases[SourceIndex(l, k, cx, cy)];
            KeyOfCell(l, k, cx, cy) == if a == 0 || a > |l.tiles| then None else Some(l.tiles[a - 1].key)
  {
    assert PlacedInside(l, k) && ValidRoom(l.rooms[l.placed[k].source]);
  }

  datatype Binding = Binding(key: string, mirrored: bool)

  /** What a map cell should be bound to. */
  function Expected(l: Layout, tiles: seq<Tile>, cx: int, cy: int): Option<Binding>
    requires ValidLayout(l)
  {
    var k := RoomAt(l, cx, cy);
    if k == |l.placed| then None
    else
      match KeyOfCell(l, k, cx, cy)
      case None => None
      case Some(key) =>
        match R.Found(tiles, key)
        case None => None
        case Some(t) => Some(Binding(t.key, l.placed[k].mirrored))
  }

  predicate Usable(tiles: seq<Tile>, key: string) { key != "" && R.Found(tiles, key).Some? }

  predicate CellUsable(l: Layout, tiles: seq<Tile>, k: nat, x: nat, y: nat)
    requires ValidLayout(l) && k < |l.placed|
  {
    assert PlacedInside(l, k);
    var r := l.rooms[l.placed[k].source];
    x < r.width && y < r.height && AuthoredKey(l, l.placed[k].source, x, y).Some? ==>
      Usable(tiles, AuthoredKey(l, l.placed[k].source, x, y).value)
  }

  /** Every content tile the placed rooms use is registered. */
  ghost predicate AllUsable(l: Layout, tiles: seq<Tile>)
    requires ValidLayout(l)
  {
    forall k: nat, x: nat, y: nat :: k < |l.placed| ==> CellUsable(l, tiles, k, x, y)
  }

  // ---------------------------------------------------- what a cache has bound

  predicate Indexed(c: T.Cache) {
    forall i :: 0 <= i < |c.cells| ==> c.cells[i].Bound? ==> c.cells[i].definition < |c.entries|
  }

  function BoundAt(c: T.Cache, i: nat): Option<Binding>
    requires Indexed(c) && i < |c.cells|
  {
    if c.cells[i].Empty? then None
    else Some(Binding(c.entries[c.cells[i].definition].definition.key, c.cells[i].mirrored))
  }

  /** The registered keys of the map's content tiles. */
  ghost function UsedKeys(tiles: seq<Tile>, aliases: seq<Alias>): (keys: set<string>)
    ensures |keys| <= |aliases|
    ensures forall i :: 0 <= i < |aliases| && R.Found(tiles, aliases[i].key).Some? ==>
              R.Found(tiles, aliases[i].key).value.key in keys
  {
    if aliases == [] then {}
    else
      var (front, a) := (aliases[..|aliases| - 1], aliases[|aliases| - 1]);
      var keys := UsedKeys(tiles, front);
      assert forall i :: 0 <= i < |front| ==> front[i] == aliases[i];
      if R.Found(tiles, a.key).Some? then keys + {R.Found(tiles, a.key).value.key} else keys
  }

  predicate DistinctEntries(entries: seq<T.Entry>) {
    forall d, e :: 0 <= d < e < |entries| ==> entries[d].definition.key != entries[e].definition.key
  }

  ghost predicate EntriesWithin(entries: seq<T.Entry>, keys: set<string>) {
    DistinctEntries(entries) && forall d :: 0 <= d < |entries| ==> entries[d].definition.key in keys
  }

  /** Distinct keys out of a set are no more than the set has. */
  lemma {:induction false} EntriesFit(entries: seq<T.Entry>, keys: set<string>)
    requires EntriesWithin(entries, keys)
    ensures |entries| <= |keys|
  {
    if entries != [] {
      var last := |entries| - 1;
      EntriesFit(entries[..last], keys - {entries[last].definition.key});
    }
  }

  /** While a map is being bound: its grid, its entries within the used keys, and cells that point to entries. */
  ghost predicate Binds(l: Layout, tiles: seq<Tile>, address: nat, c: T.Cache) {
    && c.grid == T.Grid(address, l.width, l.height) && |c.cells| == l.width * l.height
    && T.ValidGrid(c.grid, |c.cells|) && Indexed(c)
    && EntriesWithin(c.entries, UsedKeys(tiles, l.tiles))
  }

  /** One successful binding changes one cell. */
  lemma SetBindsOne(l: Layout, p: T.Published, address: nat, c: T.Cache, x: int, y: int, a: nat, mirrored: bool)
    requires |l.tiles| <= CONTENT_TILES && Binds(l, p.tiles, address, c) && T.InGrid(c.grid, x, y)
    requires a < |l.tiles| && Usable(p.tiles, l.tiles[a].key)
    ensures var c' := T.CellSet(c, p, x, y, l.tiles[a].key, mirrored);
            && T.CellIndex(c.grid, x, y) < |c.cells|
            && c'.Some? && Binds(l, p.tiles, address, c'.value)
            && BoundAt(c'.value, T.CellIndex(c.grid, x, y)) == Some(Binding(R.Found(p.tiles, l.tiles[a].key).value.key, mirrored))
            && forall i :: 0 <= i < |c.cells| && i != T.CellIndex(c.grid, x, y) ==> BoundAt(c'.value, i) == BoundAt(c, i)
  {
    EntriesFit(c.entries, UsedKeys(p.tiles, l.tiles));
    var t := R.Found(p.tiles, l.tiles[a].key).value;
    assert t.key in UsedKeys(p.tiles, l.tiles);
    var d := T.EntryOf(c.entries, t.key);
    hide T.CellIndex, T.ValidGrid, T.PhaseSeed, R.Found, UsedKeys, T.BindCell, Binds, T.EntryOf;
    BindsGrid(l, p.tiles, address, c);
    if d < |c.entries| {
      BindBindsOne(l, p.tiles, address, c, x, y, t, d, mirrored);
    } else {
      EntryIsAdded(l, p.tiles, address, c, t);
      BindBindsOne(l, p.tiles, address, c.(entries := c.entries + [T.Entry(t, t.body.native, true)]), x, y, t, d, mirrored);
    }
  }

  lemma BindsGrid(l: Layout, tiles: seq<Tile>, address: nat, c: T.Cache)
    requires Binds(l, tiles, address, c)
    ensures Indexed(c) && T.ValidGrid(c.grid, |c.cells|)
    ensures DistinctEntries(c.entries)
  {
  }

  lemma BindBindsOne(l: Layout, tiles: seq<Tile>, address: nat, c: T.Cache, x: int, y: int, t: Tile, d: nat, mirrored: bool)
    requires Binds(l, tiles, address, c) && T.InGrid(c.grid, x, y)
    requires d < |c.entries| && c.entries[d].definition.key == t.key
    ensures var (c', i) := (T.BindCell(c, x, y, t, d, mirrored), T.CellIndex(c.grid, x, y));
            && i < |c.cells| && Binds(l, tiles, address, c') && BoundAt(c', i) == Some(Binding(t.key, mirrored))
            && forall j :: 0 <= j < |c.cells| && j != i ==> BoundAt(c', j) == BoundAt(c, j)
  {
    hide T.CellIndex, T.ValidGrid, T.PhaseSeed, UsedKeys, EntriesWithin;
    T.IndexInGrid(c.grid, |c.cells|, x, y);
  }

  lemma EntryIsAdded(l: Layout, tiles: seq<Tile>, address: nat, c: T.Cache, t: Tile)
    requires Binds(l, tiles, address, c) && t.key in UsedKeys(tiles, l.tiles) && T.EntryOf(c.entries, t.key) == |c.entries|
    ensures var c' := c.(entries := c.entries + [T.Entry(t, t.body.native, true)]);
            Binds(l, tiles, address, c') && forall j :: 0 <= j < |c.cells| ==> BoundAt(c', j) == BoundAt(c, j)
  {
    hide T.ValidGrid, UsedKeys, T.EntryOf;
  }

  // ----------------------------------------------------------- the binding loop

  /** The cells bound after all cells of rooms before n, and the authored cells of room n before (x, y). */
  predicate Done(l: Layout, n: nat, y: int, x: int, cx: int, cy: int) {
    var k := RoomAt(l, cx, cy);
    k < |l.placed| && l.placed[k].source < |l.rooms| &&
    var (p, r) := (l.placed[k], l.rooms[l.placed[k].source]);
    k < n || (k == n && (cy - p.y < y || (cy - p.y == y && SourceColumn(r.width, p.mirrored, cx - p.x) < x)))
  }

  ghost predicate BoundSoFar(l: Layout, tiles: seq<Tile>, c: T.Cache, n: nat, y: int, x: int)
    requires ValidLayout(l) && Indexed(c) && |c.cells| == l.width * l.height
  {
    forall cx: nat, cy: nat :: cx < l.width && cy < l.height ==> CellBoundSoFar(l, tiles, c, n, y, x, cx, cy)
  }

  ghost predicate CellBoundSoFar(l: Layout, tiles: seq<Tile>, c: T.Cache, n: nat, y: int, x: int, cx: nat, cy: nat)
    requires ValidLayout(l) && Indexed(c) && |c.cells| == l.width * l.height && cx < l.width && cy < l.height
  {
    CellInside(l.width, l.height, cx, cy);
    BoundAt(c, Cell(l.width, cx, cy)) == if Done(l, n, y, x, cx, cy) then Expected(l, tiles, cx, cy) else None
  }

  /** The map cell of an authored cell. */
  function Destination(l: Layout, k: nat, x: int, y: int): (int, int)
    requires k < |l.placed| && l.placed[k].source < |l.rooms|
  {
    var p := l.placed[k];
    (p.x + SourceColumn(l.rooms[p.source].width, p.mirrored, x), p.y + y)
  }

  lemma DestinationIsCovered(l: Layout, n: nat, x: nat, y: nat)
    requires ValidLayout(l) && n < |l.placed| && PlacedInside(l, n)
    requires x < l.rooms[l.placed[n].source].width && y < l.rooms[l.placed[n].source].height
    ensures var (cx, cy) := Destination(l, n, x, y);
            && 0 <= cx < l.width && 0 <= cy < l.height && Covers(l, n, cx, cy) && RoomAt(l, cx, cy) == n
            && KeyOfCell(l, n, cx, cy) == AuthoredKey(l, l.placed[n].source, x, y)
  {
    var (cx, cy) := Destination(l, n, x, y);
    RoomIsUnique(l, n, cx, cy);
  }

  /** Exactly the destination becomes done when the loop passes an authored cell. */
  lemma DoneGrows(l: Layout, n: nat, x: nat, y: nat, cx: nat, cy: nat)
    requires ValidLayout(l) && n < |l.placed| && PlacedInside(l, n)
    requires x < l.rooms[l.placed[n].source].width && y < l.rooms[l.placed[n].source].height
    ensures Done(l, n, y, x + 1, cx, cy) == (Done(l, n, y, x, cx, cy) || (cx, cy) == Destination(l, n, x, y))
    ensures (cx, cy) == Destination(l, n, x, y) ==> !Done(l, n, y, x, cx, cy)
  {
    DestinationIsCovered(l, n, x, y);
    hide ValidLayout, RoomFrom;
  }

  lemma OneCellMore(l: Layout, tiles: seq<Tile>, address: nat, c: T.Cache, c': T.Cache, n: nat, y: nat, x: nat)
    requires ValidLayout(l) && n < |l.placed| && PlacedInside(l, n)
    requires x < l.rooms[l.placed[n].source].width && y < l.rooms[l.placed[n].source].height
    requires Binds(l, tiles, address, c) && Binds(l, tiles, address, c') && BoundSoFar(l, tiles, c, n, y, x)
    requires var (cx, cy) := Destination(l, n, x, y);
             0 <= cx < l.width && 0 <= cy < l.height && Cell(l.width, cx, cy) < |c.cells|
    requires var (cx, cy) := Destination(l, n, x, y);
             BoundAt(c', Cell(l.width, cx, cy)) == Expected(l, tiles, cx, cy)
    requires var (cx, cy) := Destination(l, n, x, y);
             forall i :: 0 <= i < |c.cells| && i != Cell(l.width, cx, cy) ==> BoundAt(c', i) == BoundAt(c, i)
    ensures BoundSoFar(l, tiles, c', n, y, x + 1)
  {
    hide ValidLayout, Expected, Done, BoundAt, EntriesWithin, Indexed, Cell;
    var (dx, dy) := Destination(l, n, x, y);
    var next := x + 1;
    forall cx: nat, cy: nat | cx < l.width && cy < l.height ensures CellBoundSoFar(l, tiles, c', n, y, next, cx, cy) {
      assert CellBoundSoFar(l, tiles, c, n, y, x, cx, cy);
      CellInside(l.width, l.height, cx, cy);
      DoneGrows(l, n, x, y, cx, cy);
      if Cell(l.width, cx, cy) == Cell(l.width, dx, dy) { CellsDiffer(l.width, cx, cy, dx, dy); }
    }
  }

  lemma SameDone(l: Layout, tiles: seq<Tile>, c: T.Cache, n: nat, y: int, x: int, n': nat, y': int, x': int)
    requires ValidLayout(l) && Indexed(c) && |c.cells| == l.width * l.height && BoundSoFar(l, tiles, c, n, y, x)
    requires forall cx: nat, cy: nat :: cx < l.width && cy < l.height ==> Done(l, n, y, x, cx, cy) == Done(l, n', y', x', cx, cy)
    ensures BoundSoFar(l, tiles, c, n', y', x')
  {
    hide ValidLayout, Expected, Done, BoundAt, Indexed;
    forall cx: nat, cy: nat | cx < l.width && cy < l.height ensures CellBoundSoFar(l, tiles, c, n', y', x', cx, cy) {
      assert CellBoundSoFar(l, tiles, c, n, y, x, cx, cy);
    }
  }

  lemma RowDone(l: Layout, n: nat, y: nat, cx: nat, cy: nat)
    requires ValidLayout(l) && n < |l.placed| && PlacedInside(l, n)
    ensures Done(l, n, y, l.rooms[l.placed[n].source].width, cx, cy) == Done(l, n, y + 1, 0, cx, cy)
  {
    assert RoomAt(l, cx, cy) < |l.placed| ==> Covers(l, RoomAt(l, cx, cy), cx, cy);
  }

  lemma RoomDone(l: Layout, n: nat, cx: nat, cy: nat)
    requires ValidLayout(l) && n < |l.placed| && PlacedInside(l, n)
    ensures Done(l, n, l.rooms[l.placed[n].source].height, 0, cx, cy) == Done(l, n + 1, 0, 0, cx, cy)
  {
    assert RoomAt(l, cx, cy) < |l.placed| ==> Covers(l, RoomAt(l, cx, cy), cx, cy);
  }

  /** A cell whose author gave it no key is left unbound, as it should be. */
  lemma NoKeyExpected(l: Layout, tiles: seq<Tile>, n: nat, x: nat, y: nat)
    requires ValidLayout(l) && n < |l.placed| && PlacedInside(l, n)
    requires x < l.rooms[l.placed[n].source].width && y < l.rooms[l.placed[n].source].height
    ensures var (cx, cy) := Destination(l, n, x, y);
            Expected(l, tiles, cx, cy) ==
            match AuthoredKey(l, l.placed[n].source, x, y)
            case None => None
            case Some(key) =>
              if R.Found(tiles, key).None? then None
              else Some(Binding(R.Found(tiles, key).value.key, l.placed[n].mirrored))
  {
    DestinationIsCovered(l, n, x, y);
    hide ValidLayout, AuthoredKey, RoomFrom;
  }

  lemma NothingBoundYet(l: Layout, tiles: seq<Tile>, c: T.Cache)
    requires ValidLayout(l) && |c.cells| == l.width * l.height && forall i :: 0 <= i < |c.cells| ==> c.cells[i].Empty?
    ensures Indexed(c) && BoundSoFar(l, tiles, c, 0, 0, 0)
  {
    hide ValidLayout, Expected, RoomFrom;
    forall cx: nat, cy: nat | cx < l.width && cy < l.height ensures CellBoundSoFar(l, tiles, c, 0, 0, 0, cx, cy) {
      CellInside(l.width, l.height, cx, cy);
      assert !Done(l, 0, 0, 0, cx, cy) by { NothingDone(l, cx, cy); }
    }
  }

  lemma NothingDone(l: Layout, cx: nat, cy: nat)
    ensures !Done(l, 0, 0, 0, cx, cy)
  {
    assert RoomAt(l, cx, cy) < |l.placed| ==> Covers(l, RoomAt(l, cx, cy), cx, cy);
  }

  /** Authored cells the loop has passed had usable keys, or none. */
  ghost predicate UsableSoFar(l: Layout, tiles: seq<Tile>, n: nat, y: int, x: int)
    requires ValidLayout(l)
  {
    forall k: nat, u: nat, v: nat :: k < |l.placed| && (k < n || (k == n && (v < y || (v == y && u < x)))) ==>
      CellUsable(l, tiles, k, u, v)
  }

  ghost predicate Progress(l: Layout, tiles: seq<Tile>, address: nat, c: T.Cache, n: nat, y: int, x: int)
    requires ValidLayout(l)
  {
    Binds(l, tiles, address, c) && BoundSoFar(l, tiles, c, n, y, x) && UsableSoFar(l, tiles, n, y, x)
  }

  lemma ProgressPastCell(l: Layout, p: T.Published, address: nat, c: T.Cache, c': T.Cache, n: nat, y: nat, x: nat)
    requires ValidLayout(l) && n < |l.placed| && PlacedInside(l, n)
    requires x < l.rooms[l.placed[n].source].width && y < l.rooms[l.placed[n].source].height
    requires Progress(l, p.tiles, address, c, n, y, x) && CellUsable(l, p.tiles, n, x, y)
    requires T.ValidGrid(c.grid, |c.cells|)
    requires var key := AuthoredKey(l, l.placed[n].source, x, y);
             var (cx, cy) := Destination(l, n, x, y);
             if key.Some? then T.CellSet(c, p, cx, cy, key.value, l.placed[n].mirrored) == Some(c') else c' == c
    ensures Progress(l, p.tiles, address, c', n, y, x + 1)
  {
    hide BoundAt, Expected, Done, T.CellSet, R.Found, UsedKeys;
    var (cx, cy) := Destination(l, n, x, y);
    DestinationIsCovered(l, n, x, y);
    NoKeyExpected(l, p.tiles, n, x, y);
    CellInside(l.width, l.height, cx, cy);
    KeyBinds(l, p, address, c, c', n, y, x);
    hide ValidLayout, Binds, CellUsable, BoundSoFar, AuthoredKey;
    OneCellMore(l, p.tiles, address, c, c', n, y, x);
  }

  lemma KeyBinds(l: Layout, p: T.Published, address: nat, c: T.Cache, c': T.Cache, n: nat, y: nat, x: nat)
    requires ValidLayout(l) && n < |l.placed| && PlacedInside(l, n)
    requires x < l.rooms[l.placed[n].source].width && y < l.rooms[l.placed[n].source].height
    requires Progress(l, p.tiles, address, c, n, y, x) && CellUsable(l, p.tiles, n, x, y)
    requires T.ValidGrid(c.grid, |c.cells|)
    requires var key := AuthoredKey(l, l.placed[n].source, x, y);
             var (cx, cy) := Destination(l, n, x, y);
             if key.Some? then T.CellSet(c, p, cx, cy, key.value, l.placed[n].mirrored) == Some(c') else c' == c
    ensures Binds(l, p.tiles, address, c')
    ensures var (cx, cy) := Destination(l, n, x, y);
            && 0 <= cx < l.width && 0 <= cy < l.height && Cell(l.width, cx, cy) < |c.cells|
            && BoundAt(c', Cell(l.width, cx, cy)) == Expected(l, p.tiles, cx, cy)
            && forall i :: 0 <= i < |c.cells| && i != Cell(l.width, cx, cy) ==> BoundAt(c', i) == BoundAt(c, i)
  {
    var (cx, cy) := Destination(l, n, x, y);
    DestinationIsCovered(l, n, x, y);
    NoKeyExpected(l, p.tiles, n, x, y);
    CellInside(l.width, l.height, cx, cy);
    var key := AuthoredKey(l, l.placed[n].source, x, y);
    assert ValidRoom(l.rooms[l.placed[n].source]);
    assert T.CellIndex(c.grid, cx, cy) == Cell(l.width, cx, cy);
    if key.Some? {
      var a := l.rooms[l.placed[n].source].aliases[y * ROW + x] - 1;
      hide BoundAt, Expected, Done, T.CellSet, R.Found, UsedKeys, Binds, BoundSoFar, UsableSoFar, T.CellIndex, Cell;
      SetBindsOne(l, p, address, c, cx, cy, a, l.placed[n].mirrored);
    } else {
      UnboundYet(l, p.tiles, c, n, y, x);
    }
  }

  lemma UnboundYet(l: Layout, tiles: seq<Tile>, c: T.Cache, n: nat, y: nat, x: nat)
    requires ValidLayout(l) && n < |l.placed| && PlacedInside(l, n) && Indexed(c) && |c.cells| == l.width * l.height
    requires x < l.rooms[l.placed[n].source].width && y < l.rooms[l.placed[n].source].height
    requires BoundSoFar(l, tiles, c, n, y, x)
    ensures var (cx, cy) := Destination(l, n, x, y);
            && 0 <= cx < l.width && 0 <= cy < l.height && Cell(l.width, cx, cy) < |c.cells|
            && BoundAt(c, Cell(l.width, cx, cy)) == None
  {
    var (cx, cy) := Destination(l, n, x, y);
    DestinationIsCovered(l, n, x, y);
    CellInside(l.width, l.height, cx, cy);
    DoneGrows(l, n, x, y, cx, cy);
    hide ValidLayout, BoundAt, Expected, Done, Cell;
    assert CellBoundSoFar(l, tiles, c, n, y, x, cx, cy);
  }

  lemma ProgressPastRow(l: Layout, tiles: seq<Tile>, address: nat, c: T.Cache, n: nat, y: nat)
    requires ValidLayout(l) && n < |l.placed| && PlacedInside(l, n)
    requires Progress(l, tiles, address, c, n, y, l.rooms[l.placed[n].source].width)
    ensures Progress(l, tiles, address, c, n, y + 1, 0)
  {
    hide Done, BoundSoFar, Binds;
    assert Indexed(c) && |c.cells| == l.width * l.height by { BindsGrid(l, tiles, address, c); BindsSize(l, tiles, address, c); }
    forall cx: nat, cy: nat | cx < l.width && cy < l.height
      ensures Done(l, n, y, l.rooms[l.placed[n].source].width, cx, cy) == Done(l, n, y + 1, 0, cx, cy)
    {
      RowDone(l, n, y, cx, cy);
    }
    SameDone(l, tiles, c, n, y, l.rooms[l.placed[n].source].width, n, y + 1, 0);
  }

  lemma ProgressPastRoom(l: Layout, tiles: seq<Tile>, address: nat, c: T.Cache, n: nat)
    requires ValidLayout(l) && n < |l.placed| && PlacedInside(l, n)
    requires Progress(l, tiles, address, c, n, l.rooms[l.placed[n].source].height, 0)
    ensures Progress(l, tiles, address, c, n + 1, 0, 0)
  {
    hide Done, BoundSoFar, Binds;
    assert Indexed(c) && |c.cells| == l.width * l.height by { BindsGrid(l, tiles, address, c); BindsSize(l, tiles, address, c); }
    forall cx: nat, cy: nat | cx < l.width && cy < l.height
      ensures Done(l, n, l.rooms[l.placed[n].source].height, 0, cx, cy) == Done(l, n + 1, 0, 0, cx, cy)
    {
      RoomDone(l, n, cx, cy);
    }
    SameDone(l, tiles, c, n, l.rooms[l.placed[n].source].height, 0, n + 1, 0, 0);
  }

  lemma BindsSize(l: Layout, tiles: seq<Tile>, address: nat, c: T.Cache)
    requires Binds(l, tiles, address, c)
    ensures |c.cells| == l.width * l.height
  {
  }

  /** Whether binding can succeed at all. */
  ghost predicate Bindable(l: Layout, tiles: seq<Tile>, address: nat, width: int, height: int)
    requires ValidLayout(l)
  {
    && |l.placed| >= 1 && width == l.width && height == l.height && T.CellCount(address, width, height).Some?
    && AllUsable(l, tiles)
  }

  /** All cells are bound as their authors said. */
  ghost predicate FullyBound(l: Layout, tiles: seq<Tile>, c: T.Cache)
    requires ValidLayout(l)
  {
    && Indexed(c) && |c.cells| == l.width * l.height
    && forall cx: nat, cy: nat :: cx < l.width && cy < l.height ==> CellFullyBound(l, tiles, c, cx, cy)
  }

  ghost predicate CellFullyBound(l: Layout, tiles: seq<Tile>, c: T.Cache, cx: nat, cy: nat)
    requires ValidLayout(l) && Indexed(c) && |c.cells| == l.width * l.height && cx < l.width && cy < l.height
  {
    CellInside(l.width, l.height, cx, cy);
    BoundAt(c, Cell(l.width, cx, cy)) == Expected(l, tiles, cx, cy)
  }

  lemma EverythingBound(l: Layout, tiles: seq<Tile>, address: nat, c: T.Cache)
    requires ValidLayout(l) && Progress(l, tiles, address, c, |l.placed|, 0, 0)
    ensures FullyBound(l, tiles, c) && AllUsable(l, tiles)
  {
    hide ValidLayout, BoundAt;
    forall cx: nat, cy: nat | cx < l.width && cy < l.height ensures CellFullyBound(l, tiles, c, cx, cy) {
      assert CellBoundSoFar(l, tiles, c, |l.placed|, 0, 0, cx, cy);
      assert RoomAt(l, cx, cy) < |l.placed| ==> Covers(l, RoomAt(l, cx, cy), cx, cy);
    }
  }

  lemma ProgressBegins(l: Layout, p: T.Published, address: nat, c0: T.Cache)
    requires ValidLayout(l) && T.CellCount(address, l.width, l.height).Some?
    ensures var c := T.Begun(c0, address, l.width, l.height, p.generation).value;
            T.ValidGrid(c.grid, |c.cells|) && Progress(l, p.tiles, address, c, 0, 0, 0)
  {
    NothingBoundYet(l, p.tiles, T.Begun(c0, address, l.width, l.height, p.generation).value);
    hide BoundSoFar, UsedKeys;
  }

  /** Binds every authored key of every placed room to its cell of the live map. It succeeds exactly when the map has
      the layout's size and every key is registered; a failure leaves the old map or none, never half of one. */
  method BindVariable(target: T.TileMap, address: nat, width: int, height: int, l: Layout) returns (ok: bool)
    requires ValidLayout(l) && target.Valid()
    modifies target, target.cells
    ensures target.Valid() && ok == Bindable(l, target.registry.tiles, address, width, height)
    ensures ok ==> FullyBound(l, target.registry.tiles, target.Abs())
    ensures !ok ==> target.Abs() == old(target.Abs()) || target.Abs() == T.Inactive()
  {
    hide Progress, AllUsable, CellUsable, T.CellSet, T.CellCount, AuthoredKey, R.ValidTiles, FullyBound;
    if |l.placed| < 1 || width != l.width || height != l.height { return false; }
    ghost var before := target.Abs();
    var begun := target.MapBegin(address, width, height);
    if !begun { return false; }
    ProgressBegins(l, target.Registered(), address, before);
    for n := 0 to |l.placed|
      invariant target.Valid() && fresh(target.cells) && Progress(l, target.registry.tiles, address, target.Abs(), n, 0, 0)
    {
      var bound := BindRoom(target, address, l, n);
      if !bound {
        target.MapEnd();
        return false;
      }
    }
    EverythingBound(l, target.registry.tiles, address, target.Abs());
    ok := true;
  }

  method BindRoom(target: T.TileMap, ghost address: nat, l: Layout, n: nat) returns (ok: bool)
    requires ValidLayout(l) && target.Valid() && n < |l.placed|
    requires Progress(l, target.registry.tiles, address, target.Abs(), n, 0, 0)
    modifies target`entries, target.cells
    ensures target.Valid()
    ensures ok ==> Progress(l, target.registry.tiles, address, target.Abs(), n + 1, 0, 0)
    ensures !ok ==> !AllUsable(l, target.registry.tiles)
  {
    assert PlacedInside(l, n);
    hide Progress, AllUsable, CellUsable, T.CellSet, AuthoredKey, R.ValidTiles, ValidLayout;
    var room := l.rooms[l.placed[n].source];
    for y := 0 to room.height
      invariant target.Valid() && Progress(l, target.registry.tiles, address, target.Abs(), n, y, 0)
    {
      for x := 0 to room.width
        invariant target.Valid() && Progress(l, target.registry.tiles, address, target.Abs(), n, y, x)
      {
        var bound := BindOne(target, address, l, n, y, x);
        if !bound { return false; }
      }
      ProgressPastRow(l, target.registry.tiles, address, target.Abs(), n, y);
    }
    ProgressPastRoom(l, target.registry.tiles, address, target.Abs(), n);
    ok := true;
  }

  /** Binds the key of one authored cell, if it has one. */
  method BindOne(target: T.TileMap, ghost address: nat, l: Layout, n: nat, y: nat, x: nat) returns (ok: bool)
    requires ValidLayout(l) && target.Valid() && n < |l.placed| && PlacedInside(l, n)
    requires x < l.rooms[l.placed[n].source].width && y < l.rooms[l.placed[n].source].height
    requires Progress(l, target.registry.tiles, address, target.Abs(), n, y, x)
    modifies target`entries, target.cells
    ensures target.Valid()
    ensures ok ==> Progress(l, target.registry.tiles, address, target.Abs(), n, y, x + 1)
    ensures !ok ==> !AllUsable(l, target.registry.tiles)
  {
    hide Progress, AuthoredKey, ValidLayout, AllUsable, R.ValidTiles;
    var p := l.placed[n];
    var key := AuthoredKey(l, p.source, x, y);
    if key.None? {
      PastBlankCell(l, target.registry.tiles, address, target.Abs(), n, y, x);
      ok := true;
    } else {
      var room := l.rooms[p.source];
      var destinationX := p.x + if p.mirrored then room.width - 1 - x else x;
      ok := BindKeyed(target, address, l, n, y, x, destinationX, p.y + y, key.value);
    }
  }

  method BindKeyed(target: T.TileMap, ghost address: nat, l: Layout, n: nat, y: nat, x: nat, cx: int, cy: int, key: string)
    returns (ok: bool)
    requires ValidLayout(l) && target.Valid() && n < |l.placed| && PlacedInside(l, n)
    requires x < l.rooms[l.placed[n].source].width && y < l.rooms[l.placed[n].source].height
    requires Progress(l, target.registry.tiles, address, target.Abs(), n, y, x)
    requires (cx, cy) == Destination(l, n, x, y) && AuthoredKey(l, l.placed[n].source, x, y) == Some(key)
    modifies target`entries, target.cells
    ensures target.Valid()
    ensures ok ==> Progress(l, target.registry.tiles, address, target.Abs(), n, y, x + 1)
    ensures !ok ==> !AllUsable(l, target.registry.tiles)
  {
    hide Progress, AuthoredKey, ValidLayout, AllUsable, R.ValidTiles, T.CellSet, Destination, PlacedInside;
    ghost var c, published := target.Abs(), target.Registered();
    ok := target.MapSet(cx, cy, key, l.placed[n].mirrored);
    PastKeyedCell(l, published, address, c, target.Abs(), n, y, x, cx, cy, key, ok);
  }

  lemma PastBlankCell(l: Layout, tiles: seq<Tile>, address: nat, c: T.Cache, n: nat, y: nat, x: nat)
    requires ValidLayout(l) && n < |l.placed| && PlacedInside(l, n)
    requires x < l.rooms[l.placed[n].source].width && y < l.rooms[l.placed[n].source].height
    requires Progress(l, tiles, address, c, n, y, x) && AuthoredKey(l, l.placed[n].source, x, y).None?
    ensures Progress(l, tiles, address, c, n, y, x + 1)
  {
    BindsGrid(l, tiles, address, c);
    hide Binds, BoundSoFar, ValidLayout, AuthoredKey, Destination;
    ProgressPastCell(l, T.Published(tiles, 1), address, c, c, n, y, x);
  }

  lemma PastKeyedCell(l: Layout, p: T.Published, address: nat, c: T.Cache, c': T.Cache, n: nat, y: nat, x: nat,
                      cx: int, cy: int, key: string, ok: bool)
    requires ValidLayout(l) && n < |l.placed| && PlacedInside(l, n)
    requires x < l.rooms[l.placed[n].source].width && y < l.rooms[l.placed[n].source].height
    requires Progress(l, p.tiles, address, c, n, y, x)
    requires T.ValidGrid(c.grid, |c.cells|) && (cx, cy) == Destination(l, n, x, y)
    requires AuthoredKey(l, l.placed[n].source, x, y) == Some(key)
    requires ok == T.CellSet(c, p, cx, cy, key, l.placed[n].mirrored).Some?
    requires ok ==> T.CellSet(c, p, cx, cy, key, l.placed[n].mirrored) == Some(c')
    ensures if ok then Progress(l, p.tiles, address, c', n, y, x + 1) else !AllUsable(l, p.tiles)
  {
    CellBinds(l, p, address, c, n, y, x);
    UsableMeans(l, p.tiles, n, x, y);
    hide Binds, BoundSoFar, ValidLayout, AuthoredKey, Destination, T.CellSet, CellUsable, Progress, AllUsable;
    if ok { ProgressPastCell(l, p, address, c, c', n, y, x); }
  }

  lemma UsableMeans(l: Layout, tiles: seq<Tile>, n: nat, x: nat, y: nat)
    requires ValidLayout(l) && n < |l.placed| && PlacedInside(l, n)
    requires x < l.rooms[l.placed[n].source].width && y < l.rooms[l.placed[n].source].height
    ensures var key := AuthoredKey(l, l.placed[n].source, x, y);
            CellUsable(l, tiles, n, x, y) == (key.None? || Usable(tiles, key.value))
    ensures AllUsable(l, tiles) ==> CellUsable(l, tiles, n, x, y)
  {
  }

  /** Binding a cell's key succeeds exactly when the key is usable. */
  lemma CellBinds(l: Layout, p: T.Published, address: nat, c: T.Cache, n: nat, y: nat, x: nat)
    requires ValidLayout(l) && n < |l.placed| && PlacedInside(l, n)
    requires x < l.rooms[l.placed[n].source].width && y < l.rooms[l.placed[n].source].height
    requires Progress(l, p.tiles, address, c, n, y, x) && T.ValidGrid(c.grid, |c.cells|)
    ensures AuthoredKey(l, l.placed[n].source, x, y).Some? ==>
      var (key, (cx, cy)) := (AuthoredKey(l, l.placed[n].source, x, y).value, Destination(l, n, x, y));
      T.CellSet(c, p, cx, cy, key, l.placed[n].mirrored).Some? == Usable(p.tiles, key)
  {
    var key := AuthoredKey(l, l.placed[n].source, x, y);
    if key.Some? && Usable(p.tiles, key.value) {
      DestinationIsCovered(l, n, x, y);
      var (cx, cy) := Destination(l, n, x, y);
      assert ValidRoom(l.rooms[l.placed[n].source]);
      var a := l.rooms[l.placed[n].source].aliases[y * ROW + x] - 1;
      hide T.CellSet, R.Found, UsedKeys, BoundSoFar, UsableSoFar, T.CellIndex, Binds;
      BindsInGrid(l, p.tiles, address, c, cx, cy);
      SetBindsOne(l, p, address, c, cx, cy, a, l.placed[n].mirrored);
    }
  }

  lemma BindsInGrid(l: Layout, tiles: seq<Tile>, address: nat, c: T.Cache, cx: int, cy: int)
    requires Binds(l, tiles, address, c) && 0 <= cx < l.width && 0 <= cy < l.height
    ensures T.InGrid(c.grid, cx, cy)
  {
  }

  // -------------------------------------------------------------- agreement

  /** For every cell a room covers and every pixel of it: the cell the rebuild plots there, the cell whose key the
      binder binds there and the cell the lookup reports are one and the same authored cell, the one as far from the
      room's left side, or in a mirrored room from its right side. The lookup reports its glyph, or the symbol of the
      content tile it stands for. */
  lemma RebuildBinderAndLookupAgree(l: Layout, plot: Plotter, tiles: seq<Tile>, k: nat, cx: nat, cy: nat,
                                    worldX: real, worldY: real)
    requires ValidLayout(l) && Covers(l, k, cx, cy) && InTile(cx, cy, worldX, worldY) && worldX < WORLD_X_LIMIT
    ensures var (p, r) := (l.placed[k], l.rooms[l.placed[k].source]);
            var index := 128 * (cy - p.y) + if p.mirrored then p.x + r.width - 1 - cx else cx - p.x;
            && |r.glyphs| == |r.aliases| == ROW * ROWS && 0 <= index < ROW * ROWS
            && DirectPlot(l, plot, cx, cy) == plot(r.glyphs[index])
            && (TileAtWorld(l, worldX, worldY) ==
                  if r.aliases[index] == 0 then Symbol(r.glyphs[index])
                  else if r.aliases[index] > |l.tiles| then Invalid
                  else Symbol(l.tiles[r.aliases[index] - 1].symbol))
            && var a := r.aliases[index];
               Expected(l, tiles, cx, cy) ==
               if a == 0 || a > |l.tiles| || R.Found(tiles, l.tiles[a - 1].key).None? then None
               else Some(Binding(R.Found(tiles, l.tiles[a - 1].key).value.key, l.placed[k].mirrored))
  {
    RoomIsUnique(l, k, cx, cy);
    LookupFindsPlottedCell(l, k, cx, cy, worldX, worldY);
    KeyOfPlottedCell(l, k, cx, cy);
    hide KeyOfCell, TileAtWorld, RoomFrom, R.Found;
    assert PlacedInside(l, k) && ValidRoom(l.rooms[l.placed[k].source]);
  }

  // ------------------------------------------------------- the fixed layout

  const SOURCE_ROOMS := 9

  /** Where a cell of a source room goes when every room but the first is placed twice around the centre. */
  function SourceCell(rooms: int, room: int, x: int, mirrored: int): Option<(int, int)> {
    if rooms < 1 || rooms > SOURCE_ROOMS || room < 0 || room >= rooms || x < 0 || x >= TEMPLATE_W
       || (mirrored != 0 && mirrored != 1) || (room == 0 && mirrored != 0) then None
    else if room == 0 then Some((rooms - 1, x))
    else if mirrored != 0 then Some((rooms - 1 + room, TEMPLATE_W - 1 - x))
    else Some((rooms - 1 - room, x))
  }

  /** The source cell of a final cell. */
  function FinalCell(rooms: int, finalRoom: int, localX: int): (int, int, int) {
    if finalRoom >= rooms then (finalRoom - (rooms - 1), TEMPLATE_W - 1 - localX, 1) else (rooms - 1 - finalRoom, localX, 0)
  }

  /** Every cell of the 2n-1 final rooms comes from exactly one source cell, mirrored right of the centre only. */
  lemma FixedLayoutIsABijection(rooms: int, finalRoom: int, localX: int, room: int, x: int, mirrored: int)
    requires 1 <= rooms <= SOURCE_ROOMS && 0 <= finalRoom < 2 * rooms - 1 && 0 <= localX < TEMPLATE_W
    ensures SourceCell(rooms, room, x, mirrored) == Some((finalRoom, localX))
       <==> (room, x, mirrored) == FinalCell(rooms, finalRoom, localX)
    ensures SourceCell(rooms, room, x, mirrored).Some? ==>
      var (f, lx) := SourceCell(rooms, room, x, mirrored).value;
      0 <= f < 2 * rooms - 1 && 0 <= lx < TEMPLATE_W && FinalCell(rooms, f, lx) == (room, x, mirrored)
  {
  }
}
