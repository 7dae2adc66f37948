/**
 Rooms of any size placed on one map. Three index calculations must agree: the rebuild,
 which plots rooms in overlapping template-sized chunks and copies their inner blocks;
 the binder, which gives map cells their tile keys; and the lookup from world pixels.
 Placements are relative to the layout's own bounds.
 */
module RoomGeometry {
  import A = Animation

  const TEMPLATE_W := 33
  const TEMPLATE_H := 12
  const BLOCK_W := 31
  const BLOCK_H := 9
  const ROW := 128
  const ROWS := 64
  const TILE_PIXELS := 16
  const CONTENT_TILES := 64
  const WORLD_X_LIMIT := 4194304.0

  datatype Room = Room(width: nat, height: nat, glyphs: seq<char>, aliases: seq<nat>)

  datatype Placed = Placed(source: nat, x: nat, y: nat, mirrored: bool)

  /** A content tile a map may use: the symbol its author wrote, and the tile's key. */
  datatype Alias = Alias(symbol: char, key: string)

  datatype Layout = Layout(rooms: seq<Room>, placed: seq<Placed>, width: nat, height: nat, tiles: seq<Alias>)

  predicate ValidRoom(r: Room) {
    0 < r.width <= ROW && 0 < r.height <= ROWS && |r.glyphs| == |r.aliases| == ROW * ROWS
  }

  predicate PlacedInside(l: Layout, k: nat)
    requires k < |l.placed|
  {
    var p := l.placed[k];
    p.source < |l.rooms| && p.x + l.rooms[p.source].width <= l.width && p.y + l.rooms[p.source].height <= l.height
  }

  /** The k-th placed room covers the cell. */
  predicate Covers(l: Layout, k: nat, cx: int, cy: int) {
    k < |l.placed| && l.placed[k].source < |l.rooms| &&
    var (p, r) := (l.placed[k], l.rooms[l.placed[k].source]);
    p.x <= cx < p.x + r.width && p.y <= cy < p.y + r.height
  }

  /** What the room graph promises: rooms inside the layout, no two on one cell. */
  ghost predicate ValidLayout(l: Layout) {
    && 0 < l.width && 0 < l.height && |l.tiles| <= CONTENT_TILES
    && (forall i :: 0 <= i < |l.rooms| ==> ValidRoom(l.rooms[i]))
    && (forall k :: 0 <= k < |l.placed| ==> PlacedInside(l, k))
    && forall j, k, cx, cy :: Covers(l, j, cx, cy) && Covers(l, k, cx, cy) ==> j == k
  }

  function SourceColumn(width: nat, mirrored: bool, column: int): int {
    if mirrored then width - 1 - column else column
  }

  /** The authored cell that belongs to a map cell. */
  function SourceIndex(l: Layout, k: nat, cx: int, cy: int): (i: nat)
    requires ValidLayout(l) && Covers(l, k, cx, cy)
    ensures i < ROW * ROWS
  {
    var (p, r) := (l.placed[k], l.rooms[l.placed[k].source]);
    assert ValidRoom(r);
    (cy - p.y) * ROW + SourceColumn(r.width, p.mirrored, cx - p.x)
  }

  /** The first room from k on that covers a cell, |placed| if none does. */
  function RoomFrom(l: Layout, k: nat, cx: int, cy: int): (n: nat)
    requires k <= |l.placed|
    ensures k <= n <= |l.placed| && (n < |l.placed| ==> Covers(l, n, cx, cy))
    ensures forall j :: k <= j < n ==> !Covers(l, j, cx, cy)
    decreases |l.placed| - k
  {
    if k == |l.placed| || Covers(l, k, cx, cy) then k else RoomFrom(l, k + 1, cx, cy)
  }

  function RoomAt(l: Layout, cx: int, cy: int): nat { RoomFrom(l, 0, cx, cy) }

  function Cell(width: nat, cx: nat, cy: nat): nat { cy * width + cx }

  lemma CellInside(width: nat, height: nat, cx: nat, cy: nat)
    requires cx < width && cy < height
    ensures Cell(width, cx, cy) < width * height
  {
    if cy + 1 < height { A.NextMultiple(cy + 1, height, width); }
    assert (cy + 1) * width == cy * width + width;
  }

  lemma CellsDiffer(width: nat, cx: nat, cy: nat, cx': nat, cy': nat)
    requires cx < width && cx' < width && Cell(width, cx, cy) == Cell(width, cx', cy')
    ensures cx == cx' && cy == cy'
  {
    if cy < cy' { A.NextMultiple(cy, cy', width); }
    if cy' < cy { A.NextMultiple(cy', cy, width); }
  }

  // ------------------------------------------------------------ direct plot

  /** The native plotter, taken glyph by glyph. */
  type Plotter = char -> nat

  function PlotAt(l: Layout, k: nat, plot: Plotter, cx: int, cy: int): nat
    requires ValidLayout(l) && Covers(l, k, cx, cy)
  {
    plot(l.rooms[l.placed[k].source].glyphs[SourceIndex(l, k, cx, cy)])
  }

  /** The map as it should be: every room's cells plotted where they are placed, mirrored if so, zero elsewhere. */
  function DirectPlot(l: Layout, plot: Plotter, cx: int, cy: int): nat
    requires ValidLayout(l)
  {
    var k := RoomAt(l, cx, cy);
    if k < |l.placed| then PlotAt(l, k, plot, cx, cy) else 0
  }

  // ---------------------------------------------------------------- regions

  /** Part of a room in its own coordinates: columns left..right, full rows from top, then rows down to `partial`
      as far as column `reach`. */
  datatype Stairs = Stairs(left: int, right: int, top: int, full: int, partial: int, reach: int)

  predicate InStairs(l: Layout, k: nat, r: Stairs, cx: int, cy: int) {
    Covers(l, k, cx, cy) &&
    var (x, y) := (cx - l.placed[k].x, cy - l.placed[k].y);
    r.left <= x < r.right && r.top <= y && (y < r.full || (y < r.partial && x < r.reach))
  }

  /** From `before` to `after` exactly the region was plotted, each of its cells written once more. */
  ghost predicate Painted(l: Layout, k: nat, r: Stairs, plot: Plotter,
                          before: seq<nat>, writesBefore: seq<nat>, after: seq<nat>, writes: seq<nat>)
    requires ValidLayout(l)
  {
    && |before| == |after| == |writesBefore| == |writes| == l.width * l.height
    && forall cx: nat, cy: nat :: cx < l.width && cy < l.height ==>
         CellPainted(l, k, r, plot, before, writesBefore, after, writes, cx, cy)
  }

  ghost predicate CellPainted(l: Layout, k: nat, r: Stairs, plot: Plotter, before: seq<nat>, writesBefore: seq<nat>,
                              after: seq<nat>, writes: seq<nat>, cx: nat, cy: nat)
    requires ValidLayout(l) && cx < l.width && cy < l.height
    requires |before| == |after| == |writesBefore| == |writes| == l.width * l.height
  {
    CellInside(l.width, l.height, cx, cy);
    var i := Cell(l.width, cx, cy);
    if InStairs(l, k, r, cx, cy) then after[i] == PlotAt(l, k, plot, cx, cy) && writes[i] == writesBefore[i] + 1
    else after[i] == before[i] && writes[i] == writesBefore[i]
  }

  /** Plotting one region and then a disjoint one plots their union. */
  lemma PaintedJoins(l: Layout, k: nat, a: Stairs, b: Stairs, ab: Stairs, plot: Plotter, s0: seq<nat>, n0: seq<nat>,
                     s1: seq<nat>, n1: seq<nat>, s2: seq<nat>, n2: seq<nat>)
    requires ValidLayout(l) && Painted(l, k, a, plot, s0, n0, s1, n1) && Painted(l, k, b, plot, s1, n1, s2, n2)
    requires forall cx, cy :: InStairs(l, k, ab, cx, cy) == (InStairs(l, k, a, cx, cy) || InStairs(l, k, b, cx, cy))
    requires forall cx, cy :: !(InStairs(l, k, a, cx, cy) && InStairs(l, k, b, cx, cy))
    ensures Painted(l, k, ab, plot, s0, n0, s2, n2)
  {
    hide ValidLayout, InStairs, PlotAt;
    forall cx: nat, cy: nat | cx < l.width && cy < l.height ensures CellPainted(l, k, ab, plot, s0, n0, s2, n2, cx, cy) {
      assert CellPainted(l, k, a, plot, s0, n0, s1, n1, cx, cy) && CellPainted(l, k, b, plot, s1, n1, s2, n2, cx, cy);
    }
  }

  lemma PaintedSame(l: Layout, k: nat, a: Stairs, b: Stairs, plot: Plotter, s0: seq<nat>, n0: seq<nat>, s: seq<nat>, n: seq<nat>)
    requires ValidLayout(l) && Painted(l, k, a, plot, s0, n0, s, n)
    requires forall cx, cy :: InStairs(l, k, a, cx, cy) == InStairs(l, k, b, cx, cy)
    ensures Painted(l, k, b, plot, s0, n0, s, n)
  {
    hide ValidLayout, InStairs, PlotAt;
    forall cx: nat, cy: nat | cx < l.width && cy < l.height ensures CellPainted(l, k, b, plot, s0, n0, s, n, cx, cy) {
      assert CellPainted(l, k, a, plot, s0, n0, s, n, cx, cy);
    }
  }

  lemma PaintedNothing(l: Layout, k: nat, r: Stairs, plot: Plotter, s: seq<nat>, n: seq<nat>)
    requires ValidLayout(l) && |s| == |n| == l.width * l.height
    requires forall cx, cy :: !InStairs(l, k, r, cx, cy)
    ensures Painted(l, k, r, plot, s, n, s, n)
  {
    hide ValidLayout, InStairs, PlotAt;
  }

  /** One write plots the one cell of its region. */
  lemma PaintedOne(l: Layout, k: nat, plot: Plotter, cx: nat, cy: nat, s: seq<nat>, n: seq<nat>)
    requires ValidLayout(l) && |s| == |n| == l.width * l.height && Covers(l, k, cx, cy)
    ensures cx < l.width && cy < l.height && Cell(l.width, cx, cy) < |s|
    ensures var (x, y, i) := (cx - l.placed[k].x, cy - l.placed[k].y, Cell(l.width, cx, cy));
            Painted(l, k, Stairs(x, x + 1, y, y + 1, y + 1, x), plot, s, n,
                    s[i := PlotAt(l, k, plot, cx, cy)], n[i := n[i] + 1])
  {
    assert PlacedInside(l, k);
    CellInside(l.width, l.height, cx, cy);
    var (x, y, i) := (cx - l.placed[k].x, cy - l.placed[k].y, Cell(l.width, cx, cy));
    var r := Stairs(x, x + 1, y, y + 1, y + 1, x);
    forall u, v ensures InStairs(l, k, r, u, v) <==> u == cx && v == cy { }
    var s', n' := s[i := PlotAt(l, k, plot, cx, cy)], n[i := n[i] + 1];
    hide ValidLayout, InStairs, PlotAt;
    forall u: nat, v: nat | u < l.width && v < l.height ensures CellPainted(l, k, r, plot, s, n, s', n', u, v) {
      CellInside(l.width, l.height, u, v);
      if Cell(l.width, u, v) == i { CellsDiffer(l.width, u, v, cx, cy); }
    }
  }

  // ---------------------------------------------------------------- rebuild

  function ChunkIndex(x: nat, y: nat): nat { y * TEMPLATE_W + x }

  /** The glyph of a room cell in unmirrored map order, blank outside the room. */
  function ChunkGlyph(r: Room, mirrored: bool, x: int, y: int): char
    requires ValidRoom(r)
  {
    if y < 0 || y >= r.height || x < 0 || x >= r.width then ' ' else r.glyphs[y * ROW + SourceColumn(r.width, mirrored, x)]
  }

  ghost predicate ChunkHolds(chunk: seq<char>, r: Room, mirrored: bool, windowX: int, windowY: int)
    requires ValidRoom(r)
  {
    |chunk| == TEMPLATE_W * TEMPLATE_H &&
    forall x: nat, y: nat :: x < TEMPLATE_W && y < TEMPLATE_H ==>
      chunk[ChunkIndex(x, y)] == ChunkGlyph(r, mirrored, windowX + x, windowY + y)
  }

  /** The template-sized window of a room that starts at (windowX, windowY), blanks around the room. */
  method BuildChunk(r: Room, mirrored: bool, windowX: int, windowY: int) returns (chunk: array<char>)
    requires ValidRoom(r)
    ensures fresh(chunk) && ChunkHolds(chunk[..], r, mirrored, windowX, windowY)
  {
    chunk := new char[TEMPLATE_W * TEMPLATE_H](_ => ' ');
    for y := 0 to TEMPLATE_H
      invariant forall u: nat, v: nat :: u < TEMPLATE_W && v < y ==>
                  chunk[ChunkIndex(u, v)] == ChunkGlyph(r, mirrored, windowX + u, windowY + v)
      invariant forall u: nat, v: nat :: u < TEMPLATE_W && y <= v < TEMPLATE_H ==> chunk[ChunkIndex(u, v)] == ' '
    {
      var sourceY := windowY + y;
      if 0 <= sourceY < r.height {
        for x := 0 to TEMPLATE_W
          invariant forall u: nat, v: nat :: u < TEMPLATE_W && v < y ==>
                      chunk[ChunkIndex(u, v)] == ChunkGlyph(r, mirrored, windowX + u, windowY + v)
          invariant forall u: nat :: u < x ==> chunk[ChunkIndex(u, y)] == ChunkGlyph(r, mirrored, windowX + u, windowY + y)
          invariant forall u: nat :: x <= u < TEMPLATE_W ==> chunk[ChunkIndex(u, y)] == ' '
          invariant forall u: nat, v: nat :: u < TEMPLATE_W && y < v < TEMPLATE_H ==> chunk[ChunkIndex(u, v)] == ' '
        {
          var logicalX := windowX + x;
          if 0 <= logicalX < r.width {
            var authoredX := if mirrored then r.width - 1 - logicalX else logicalX;
            chunk[ChunkIndex(x, y)] := r.glyphs[sourceY * ROW + authoredX];
          }
        }
      }
    }
  }

  /** The block at (blockX, blockY) of a room, as far as it has been copied. */
  function BlockStairs(blockX: int, blockY: int, y: int, reach: int): Stairs {
    Stairs(blockX, blockX + BLOCK_W, blockY, y, y + 1, reach)
  }

  /** Copies the inner block of a plotted chunk to the map; counts each write. */
  method CopyBlock(l: Layout, k: nat, plot: Plotter, generated: seq<nat>, blockX: nat, blockY: nat,
                   staging: array<nat>, ghost writes: seq<nat>) returns (ghost writes': seq<nat>)
    requires ValidLayout(l) && k < |l.placed| && PlacedInside(l, k) && |generated| == TEMPLATE_W * TEMPLATE_H
    requires GeneratedHolds(generated, l, k, plot, blockX - 1, blockY - 3)
    requires staging.Length == |writes| == l.width * l.height
    modifies staging
    ensures Painted(l, k, BlockStairs(blockX, blockY, blockY + BLOCK_H, 0), plot, old(staging[..]), writes, staging[..], writes')
  {
    hide ValidLayout, Painted, PlotAt, InStairs, GeneratedHolds;
    writes' := writes;
    BlockBegins(l, k, blockX, blockY, plot, staging[..], writes);
    for copyY := 3 to TEMPLATE_H
      invariant Painted(l, k, BlockStairs(blockX, blockY, blockY + copyY - 3, 0), plot, old(staging[..]), writes, staging[..], writes')
      invariant |writes'| == staging.Length
    {
      var logicalY := blockY - 3 + copyY;
      if blockY <= logicalY < l.rooms[l.placed[k].source].height {
        writes' := CopyRow(l, k, plot, generated, blockX, blockY, copyY, staging, old(staging[..]), writes, writes');
      } else {
        RowOutside(l, k, blockX, blockY, logicalY, plot, old(staging[..]), writes, staging[..], writes');
      }
    }
  }

  ghost predicate GeneratedHolds(generated: seq<nat>, l: Layout, k: nat, plot: Plotter, windowX: int, windowY: int)
    requires ValidLayout(l) && k < |l.placed| && PlacedInside(l, k) && |generated| == TEMPLATE_W * TEMPLATE_H
  {
    var r := l.rooms[l.placed[k].source];
    ValidRoom(r) && forall x: nat, y: nat :: x < TEMPLATE_W && y < TEMPLATE_H ==>
      generated[ChunkIndex(x, y)] == plot(ChunkGlyph(r, l.placed[k].mirrored, windowX + x, windowY + y))
  }

  method CopyRow(l: Layout, k: nat, plot: Plotter, generated: seq<nat>, blockX: nat, blockY: nat, copyY: nat,
                 staging: array<nat>, ghost before: seq<nat>, ghost writes0: seq<nat>, ghost writes: seq<nat>)
    returns (ghost writes': seq<nat>)
    requires ValidLayout(l) && k < |l.placed| && PlacedInside(l, k) && |generated| == TEMPLATE_W * TEMPLATE_H
    requires GeneratedHolds(generated, l, k, plot, blockX - 1, blockY - 3)
    requires 3 <= copyY < TEMPLATE_H && blockY + copyY - 3 < l.rooms[l.placed[k].source].height
    requires staging.Length == |writes| == l.width * l.height
    requires Painted(l, k, BlockStairs(blockX, blockY, blockY + copyY - 3, 0), plot, before, writes0, staging[..], writes)
    modifies staging
    ensures |writes'| == staging.Length
    ensures Painted(l, k, BlockStairs(blockX, blockY, blockY + copyY - 2, 0), plot, before, writes0, staging[..], writes')
  {
    hide ValidLayout, Painted, PlotAt, InStairs, GeneratedHolds, Cell;
    var p := l.placed[k];
    var y := blockY + copyY - 3;
    writes' := writes;
    RowBegins(l, k, blockX, blockY, y, plot, before, writes0, staging[..], writes);
    for copyX := 1 to TEMPLATE_W - 1
      invariant |writes'| == staging.Length
      invariant Painted(l, k, BlockStairs(blockX, blockY, y, blockX + copyX - 1), plot, before, writes0, staging[..], writes')
    {
      var logicalX := blockX - 1 + copyX;
      if logicalX < l.rooms[p.source].width {
        ghost var s, n := staging[..], writes';
        CopiedCell(l, k, plot, generated, blockX, blockY, copyX, copyY);
        PaintedOne(l, k, plot, p.x + logicalX, p.y + y, s, n);
        staging[Cell(l.width, p.x + logicalX, p.y + y)] := generated[ChunkIndex(copyX, copyY)];
        writes' := n[Cell(l.width, p.x + logicalX, p.y + y) := n[Cell(l.width, p.x + logicalX, p.y + y)] + 1];
        assert staging[..] == s[Cell(l.width, p.x + logicalX, p.y + y) := generated[ChunkIndex(copyX, copyY)]];
        RowGrows(l, k, blockX, blockY, y, logicalX, plot, before, writes0, s, n, staging[..], writes');
      } else {
        ColumnOutside(l, k, blockX, blockY, y, logicalX, plot, before, writes0, staging[..], writes');
      }
    }
    RowEnds(l, k, blockX, blockY, y, plot, before, writes0, staging[..], writes');
  }

  /** The copied chunk cell is the room cell it lands on. */
  lemma CopiedCell(l: Layout, k: nat, plot: Plotter, generated: seq<nat>, blockX: nat, blockY: nat, copyX: nat, copyY: nat)
    requires ValidLayout(l) && k < |l.placed| && PlacedInside(l, k) && |generated| == TEMPLATE_W * TEMPLATE_H
    requires GeneratedHolds(generated, l, k, plot, blockX - 1, blockY - 3)
    requires 3 <= copyY < TEMPLATE_H && blockY + copyY - 3 < l.rooms[l.placed[k].source].height
    requires 1 <= copyX < TEMPLATE_W && blockX + copyX - 1 < l.rooms[l.placed[k].source].width
    ensures var (cx, cy) := (l.placed[k].x + blockX + copyX - 1, l.placed[k].y + blockY + copyY - 3);
            && Covers(l, k, cx, cy) && ChunkIndex(copyX, copyY) < |generated|
            && generated[ChunkIndex(copyX, copyY)] == PlotAt(l, k, plot, cx, cy)
  {
  }

  lemma BlockBegins(l: Layout, k: nat, blockX: int, blockY: int, plot: Plotter, s: seq<nat>, n: seq<nat>)
    requires ValidLayout(l) && |s| == |n| == l.width * l.height && 0 <= blockX
    ensures Painted(l, k, BlockStairs(blockX, blockY, blockY, 0), plot, s, n, s, n)
  {
    PaintedNothing(l, k, BlockStairs(blockX, blockY, blockY, 0), plot, s, n);
  }

  lemma RowBegins(l: Layout, k: nat, blockX: nat, blockY: int, y: int, plot: Plotter,
                  s0: seq<nat>, n0: seq<nat>, s: seq<nat>, n: seq<nat>)
    requires ValidLayout(l) && Painted(l, k, BlockStairs(blockX, blockY, y, 0), plot, s0, n0, s, n)
    ensures Painted(l, k, BlockStairs(blockX, blockY, y, blockX), plot, s0, n0, s, n)
  {
    hide ValidLayout, Painted;
    PaintedSame(l, k, BlockStairs(blockX, blockY, y, 0), BlockStairs(blockX, blockY, y, blockX), plot, s0, n0, s, n);
  }

  lemma RowEnds(l: Layout, k: nat, blockX: nat, blockY: int, y: int, plot: Plotter,
                s0: seq<nat>, n0: seq<nat>, s: seq<nat>, n: seq<nat>)
    requires ValidLayout(l) && blockY <= y && Painted(l, k, BlockStairs(blockX, blockY, y, blockX + BLOCK_W), plot, s0, n0, s, n)
    ensures Painted(l, k, BlockStairs(blockX, blockY, y + 1, 0), plot, s0, n0, s, n)
  {
    hide ValidLayout, Painted;
    PaintedSame(l, k, BlockStairs(blockX, blockY, y, blockX + BLOCK_W), BlockStairs(blockX, blockY, y + 1, 0), plot, s0, n0, s, n);
  }

  lemma RowOutside(l: Layout, k: nat, blockX: nat, blockY: int, y: int, plot: Plotter,
                   s0: seq<nat>, n0: seq<nat>, s: seq<nat>, n: seq<nat>)
    requires ValidLayout(l) && k < |l.placed| && PlacedInside(l, k) && y >= l.rooms[l.placed[k].source].height
    requires Painted(l, k, BlockStairs(blockX, blockY, y, 0), plot, s0, n0, s, n)
    ensures Painted(l, k, BlockStairs(blockX, blockY, y + 1, 0), plot, s0, n0, s, n)
  {
    hide ValidLayout, Painted;
    PaintedSame(l, k, BlockStairs(blockX, blockY, y, 0), BlockStairs(blockX, blockY, y + 1, 0), plot, s0, n0, s, n);
  }

  lemma ColumnOutside(l: Layout, k: nat, blockX: nat, blockY: int, y: int, x: nat, plot: Plotter,
                      s0: seq<nat>, n0: seq<nat>, s: seq<nat>, n: seq<nat>)
    requires ValidLayout(l) && k < |l.placed| && PlacedInside(l, k) && x >= l.rooms[l.placed[k].source].width
    requires Painted(l, k, BlockStairs(blockX, blockY, y, x), plot, s0, n0, s, n)
    ensures Painted(l, k, BlockStairs(blockX, blockY, y, x + 1), plot, s0, n0, s, n)
  {
    hide ValidLayout, Painted;
    PaintedSame(l, k, BlockStairs(blockX, blockY, y, x), BlockStairs(blockX, blockY, y, x + 1), plot, s0, n0, s, n);
  }

  lemma RowGrows(l: Layout, k: nat, blockX: nat, blockY: int, y: int, x: nat, plot: Plotter,
                 s0: seq<nat>, n0: seq<nat>, s: seq<nat>, n: seq<nat>, s': seq<nat>, n': seq<nat>)
    requires ValidLayout(l) && k < |l.placed| && blockX <= x < blockX + BLOCK_W && blockY <= y
    requires Painted(l, k, BlockStairs(blockX, blockY, y, x), plot, s0, n0, s, n)
    requires Painted(l, k, Stairs(x, x + 1, y, y + 1, y + 1, x), plot, s, n, s', n')
    ensures Painted(l, k, BlockStairs(blockX, blockY, y, x + 1), plot, s0, n0, s', n')
  {
    hide ValidLayout, Painted;
    PaintedJoins(l, k, BlockStairs(blockX, blockY, y, x), Stairs(x, x + 1, y, y + 1, y + 1, x),
                 BlockStairs(blockX, blockY, y, x + 1), plot, s0, n0, s, n, s', n');
  }

  /** A room, block row by block row. */
  method PlotRoom(l: Layout, k: nat, plot: Plotter, staging: array<nat>, ghost writes: seq<nat>)
    returns (ghost writes': seq<nat>)
    requires ValidLayout(l) && k < |l.placed|
    requires staging.Length == |writes| == l.width * l.height
    modifies staging
    ensures |writes'| == staging.Length && Painted(l, k, WholeRoom(l, k), plot, old(staging[..]), writes, staging[..], writes')
  {
    assert PlacedInside(l, k) && ValidRoom(l.rooms[l.placed[k].source]);
    hide ValidLayout, Painted, InStairs, GeneratedHolds;
    var room := l.rooms[l.placed[k].source];
    writes' := writes;
    RoomBegins(l, k, plot, staging[..], writes);
    var blockY := 0;
    while blockY < room.height
      invariant |writes'| == staging.Length
      invariant Painted(l, k, RoomStairs(blockY, 0), plot, old(staging[..]), writes, staging[..], writes')
    {
      var blockX := 0;
      while blockX < room.width
        invariant |writes'| == staging.Length
        invariant Painted(l, k, RoomStairs(blockY, blockX), plot, old(staging[..]), writes, staging[..], writes')
      {
        ghost var s, n := staging[..], writes';
        var chunk := BuildChunk(room, l.placed[k].mirrored, blockX - 1, blockY - 3);
        var generated := seq(TEMPLATE_W * TEMPLATE_H, i requires 0 <= i < chunk.Length reads chunk => plot(chunk[i]));
        ChunkIsPlotted(l, k, plot, chunk[..], generated, blockX - 1, blockY - 3);
        writes' := CopyBlock(l, k, plot, generated, blockX, blockY, staging, n);
        BlockJoins(l, k, blockX, blockY, plot, old(staging[..]), writes, s, n, staging[..], writes');
        blockX := blockX + BLOCK_W;
      }
      BlockRowEnds(l, k, blockX, blockY, plot, old(staging[..]), writes, staging[..], writes');
      blockY := blockY + BLOCK_H;
    }
    RoomEnds(l, k, blockY, plot, old(staging[..]), writes, staging[..], writes');
  }

  function WholeRoom(l: Layout, k: nat): Stairs { Stairs(0, ROW, 0, ROWS, ROWS, 0) }

  /** Whole block rows above `blockY`, and blocks left of `blockX` in that row. */
  function RoomStairs(blockY: int, blockX: int): Stairs { Stairs(0, ROW, 0, blockY, blockY + BLOCK_H, blockX) }

  lemma RoomBegins(l: Layout, k: nat, plot: Plotter, s: seq<nat>, n: seq<nat>)
    requires ValidLayout(l) && |s| == |n| == l.width * l.height
    ensures Painted(l, k, RoomStairs(0, 0), plot, s, n, s, n)
  {
    PaintedNothing(l, k, RoomStairs(0, 0), plot, s, n);
  }

  lemma ChunkIsPlotted(l: Layout, k: nat, plot: Plotter, chunk: seq<char>, generated: seq<nat>, windowX: int, windowY: int)
    requires ValidLayout(l) && k < |l.placed| && PlacedInside(l, k)
    requires ValidRoom(l.rooms[l.placed[k].source])
    requires ChunkHolds(chunk, l.rooms[l.placed[k].source], l.placed[k].mirrored, windowX, windowY)
    requires |generated| == |chunk| && forall i :: 0 <= i < |chunk| ==> generated[i] == plot(chunk[i])
    ensures GeneratedHolds(generated, l, k, plot, windowX, windowY)
  {
    hide ValidLayout, ChunkGlyph;
  }

  lemma BlockJoins(l: Layout, k: nat, blockX: nat, blockY: nat, plot: Plotter, s0: seq<nat>, n0: seq<nat>,
                   s: seq<nat>, n: seq<nat>, s': seq<nat>, n': seq<nat>)
    requires ValidLayout(l) && k < |l.placed| && PlacedInside(l, k) && ValidRoom(l.rooms[l.placed[k].source])
    requires Painted(l, k, RoomStairs(blockY, blockX), plot, s0, n0, s, n)
    requires Painted(l, k, BlockStairs(blockX, blockY, blockY + BLOCK_H, 0), plot, s, n, s', n')
    ensures Painted(l, k, RoomStairs(blockY, blockX + BLOCK_W), plot, s0, n0, s', n')
  {
    hide Painted;
    hide ValidLayout;
    PaintedJoins(l, k, RoomStairs(blockY, blockX), BlockStairs(blockX, blockY, blockY + BLOCK_H, 0),
                 RoomStairs(blockY, blockX + BLOCK_W), plot, s0, n0, s, n, s', n');
  }

  lemma BlockRowEnds(l: Layout, k: nat, blockX: nat, blockY: nat, plot: Plotter,
                     s0: seq<nat>, n0: seq<nat>, s: seq<nat>, n: seq<nat>)
    requires ValidLayout(l) && k < |l.placed| && PlacedInside(l, k) && blockX >= l.rooms[l.placed[k].source].width
    requires Painted(l, k, RoomStairs(blockY, blockX), plot, s0, n0, s, n)
    ensures Painted(l, k, RoomStairs(blockY + BLOCK_H, 0), plot, s0, n0, s, n)
  {
    hide Painted, ValidLayout;
    PaintedSame(l, k, RoomStairs(blockY, blockX), RoomStairs(blockY + BLOCK_H, 0), plot, s0, n0, s, n);
  }

  lemma RoomEnds(l: Layout, k: nat, blockY: nat, plot: Plotter, s0: seq<nat>, n0: seq<nat>, s: seq<nat>, n: seq<nat>)
    requires ValidLayout(l) && k < |l.placed| && PlacedInside(l, k) && blockY >= l.rooms[l.placed[k].source].height
    requires Painted(l, k, RoomStairs(blockY, 0), plot, s0, n0, s, n)
    ensures Painted(l, k, WholeRoom(l, k), plot, s0, n0, s, n)
  {
    hide Painted;
    assert ValidRoom(l.rooms[l.placed[k].source]);
    hide ValidLayout;
    PaintedSame(l, k, RoomStairs(blockY, 0), WholeRoom(l, k), plot, s0, n0, s, n);
  }

  /** A covered cell belongs to the one room that covers it. */
  lemma RoomIsUnique(l: Layout, k: nat, cx: int, cy: int)
    requires ValidLayout(l) && Covers(l, k, cx, cy)
    ensures RoomAt(l, cx, cy) == k
  {
    assert Covers(l, RoomAt(l, cx, cy), cx, cy);
  }

  /** The first n rooms are plotted, each of their cells written once; nothing else was written. */
  ghost predicate RoomsPlotted(l: Layout, n: nat, plot: Plotter, staging: seq<nat>, writes: seq<nat>)
    requires ValidLayout(l)
  {
    && |staging| == |writes| == l.width * l.height
    && forall cx: nat, cy: nat :: cx < l.width && cy < l.height ==> CellPlotted(l, n, plot, staging, writes, cx, cy)
  }

  ghost predicate CellPlotted(l: Layout, n: nat, plot: Plotter, staging: seq<nat>, writes: seq<nat>, cx: nat, cy: nat)
    requires ValidLayout(l) && |staging| == |writes| == l.width * l.height && cx < l.width && cy < l.height
  {
    CellInside(l.width, l.height, cx, cy);
    var (i, k) := (Cell(l.width, cx, cy), RoomAt(l, cx, cy));
    if k < |l.placed| && k < n then staging[i] == PlotAt(l, k, plot, cx, cy) && writes[i] == 1
    else staging[i] == 0 && writes[i] == 0
  }

  lemma OneRoomMore(l: Layout, k: nat, plot: Plotter, s: seq<nat>, n: seq<nat>, s': seq<nat>, n': seq<nat>)
    requires ValidLayout(l) && k < |l.placed| && RoomsPlotted(l, k, plot, s, n)
    requires Painted(l, k, WholeRoom(l, k), plot, s, n, s', n')
    ensures RoomsPlotted(l, k + 1, plot, s', n')
  {
    hide PlotAt;
    assert PlacedInside(l, k) && ValidRoom(l.rooms[l.placed[k].source]);
    var m := k + 1;
    forall cx: nat, cy: nat | cx < l.width && cy < l.height ensures CellPlotted(l, m, plot, s', n', cx, cy) {
      assert CellPainted(l, k, WholeRoom(l, k), plot, s, n, s', n', cx, cy) && CellPlotted(l, k, plot, s, n, cx, cy);
      CellInside(l.width, l.height, cx, cy);
      if Covers(l, k, cx, cy) { RoomIsUnique(l, k, cx, cy); }
    }
  }

  /** Rebuilds the map: every cell of every room is written exactly once and the whole equals the direct plot. */
  method Rebuild(l: Layout, plot: Plotter) returns (staging: array<nat>, ghost writes: seq<nat>)
    requires ValidLayout(l)
    ensures staging.Length == |writes| == l.width * l.height
    ensures forall cx: nat, cy: nat :: cx < l.width && cy < l.height ==> CellIsDirect(l, plot, staging[..], cx, cy)
    ensures forall cx: nat, cy: nat :: cx < l.width && cy < l.height ==> WrittenOnce(l, writes, cx, cy)
  {
    hide Painted, CellPlotted, ValidLayout, RoomAt;
    staging := new nat[l.width * l.height](_ => 0);
    writes := seq(l.width * l.height, _ => 0);
    NoRoomYet(l, plot, staging[..], writes);
    for k := 0 to |l.placed|
      invariant staging.Length == l.width * l.height && RoomsPlotted(l, k, plot, staging[..], writes)
    {
      ghost var s, n := staging[..], writes;
      writes := PlotRoom(l, k, plot, staging, n);
      OneRoomMore(l, k, plot, s, n, staging[..], writes);
    }
    AllRoomsPlotted(l, plot, staging[..], writes);
  }

  ghost predicate CellIsDirect(l: Layout, plot: Plotter, staging: seq<nat>, cx: nat, cy: nat)
    requires ValidLayout(l) && |staging| == l.width * l.height && cx < l.width && cy < l.height
  {
    CellInside(l.width, l.height, cx, cy);
    staging[Cell(l.width, cx, cy)] == DirectPlot(l, plot, cx, cy)
  }

  /** Cells of rooms are written exactly once, others never. */
  ghost predicate WrittenOnce(l: Layout, writes: seq<nat>, cx: nat, cy: nat)
    requires ValidLayout(l) && |writes| == l.width * l.height && cx < l.width && cy < l.height
  {
    CellInside(l.width, l.height, cx, cy);
    writes[Cell(l.width, cx, cy)] == if RoomAt(l, cx, cy) < |l.placed| then 1 else 0
  }

  lemma NoRoomYet(l: Layout, plot: Plotter, s: seq<nat>, n: seq<nat>)
    requires ValidLayout(l) && |s| == |n| == l.width * l.height
    requires forall i :: 0 <= i < |s| ==> s[i] == 0 && n[i] == 0
    ensures RoomsPlotted(l, 0, plot, s, n)
  {
    hide ValidLayout, PlotAt, RoomAt;
    forall cx: nat, cy: nat | cx < l.width && cy < l.height ensures CellPlotted(l, 0, plot, s, n, cx, cy) {
      CellInside(l.width, l.height, cx, cy);
    }
  }

  lemma AllRoomsPlotted(l: Layout, plot: Plotter, s: seq<nat>, n: seq<nat>)
    requires ValidLayout(l) && RoomsPlotted(l, |l.placed|, plot, s, n)
    ensures forall cx: nat, cy: nat :: cx < l.width && cy < l.height ==> CellIsDirect(l, plot, s, cx, cy)
    ensures forall cx: nat, cy: nat :: cx < l.width && cy < l.height ==> WrittenOnce(l, n, cx, cy)
  {
    hide ValidLayout, PlotAt, RoomAt;
    forall cx: nat, cy: nat | cx < l.width && cy < l.height
      ensures CellIsDirect(l, plot, s, cx, cy) && WrittenOnce(l, n, cx, cy)
    {
      assert CellPlotted(l, |l.placed|, plot, s, n, cx, cy);
    }
  }

  // ----------------------------------------------------------------- lookup

  /** What a room cell was written as: nothing, a broken alias, or a symbol. */
  datatype Reference = Nothing | Invalid | Symbol(symbol: char)

  function ReferenceOf(l: Layout, room: nat, index: nat): Reference
    requires ValidLayout(l) && room < |l.rooms| && index < ROW * ROWS
  {
    assert ValidRoom(l.rooms[room]);
    var a := l.rooms[room].aliases[index];
    if a == 0 then Symbol(l.rooms[room].glyphs[index])
    else if a > |l.tiles| then Invalid
    else Symbol(l.tiles[a - 1].symbol)
  }

  /** The first room whose pixel rectangle holds the point, as the lookup finds it. */
  function RoomAtPixel(l: Layout, k: nat, px: int, py: int): (n: nat)
    requires ValidLayout(l) && k <= |l.placed|
    ensures k <= n <= |l.placed|
    decreases |l.placed| - k
  {
    if k == |l.placed| then k
    else
      assert PlacedInside(l, k);
      if AtPixel(l, k, px, py) then k else RoomAtPixel(l, k + 1, px, py)
  }

  predicate AtPixel(l: Layout, k: nat, px: int, py: int)
    requires k < |l.placed| && PlacedInside(l, k)
  {
    var (p, r) := (l.placed[k], l.rooms[l.placed[k].source]);
    && p.x * TILE_PIXELS <= px < p.x * TILE_PIXELS + r.width * TILE_PIXELS
    && p.y * TILE_PIXELS <= py < p.y * TILE_PIXELS + r.height * TILE_PIXELS
  }

  /** The authored reference at a world position. */
  function TileAtWorld(l: Layout, worldX: real, worldY: real): Reference
    requires ValidLayout(l)
  {
    if worldX < 0.0 || worldY < 0.0 || worldX >= WORLD_X_LIMIT then Nothing
    else
      var k := RoomAtPixel(l, 0, worldX.Floor, worldY.Floor);
      if k == |l.placed| then Nothing
      else
        assert PlacedInside(l, k) && ValidRoom(l.rooms[l.placed[k].source]);
        var (p, r) := (l.placed[k], l.rooms[l.placed[k].source]);
        var column := ((worldX - (p.x * TILE_PIXELS) as real) / 16.0).Floor;
        var row := ((worldY - (p.y * TILE_PIXELS) as real) / 16.0).Floor;
        if column < 0 || column >= r.width || row < 0 || row >= r.height then Nothing
        else ReferenceOf(l, p.source, row * ROW + SourceColumn(r.width, p.mirrored, column))
  }

  /** The lookup as it runs: the rooms are tried in order. */
  method PinnedTileAtWorld(l: Layout, worldX: real, worldY: real) returns (r: Reference)
    requires ValidLayout(l)
    ensures r == TileAtWorld(l, worldX, worldY)
  {
    if worldX < 0.0 || worldY < 0.0 || worldX >= WORLD_X_LIMIT { return Nothing; }
    var pixelX, pixelY := worldX.Floor, worldY.Floor;
    var k := 0;
    while k < |l.placed| && !AtPixel(l, k, pixelX, pixelY)
      invariant k <= |l.placed| && RoomAtPixel(l, 0, pixelX, pixelY) == RoomAtPixel(l, k, pixelX, pixelY)
    {
      k := k + 1;
    }
    if k == |l.placed| { return Nothing; }
    assert ValidRoom(l.rooms[l.placed[k].source]);
    var (p, room) := (l.placed[k], l.rooms[l.placed[k].source]);
    var column := ((worldX - (p.x * TILE_PIXELS) as real) / 16.0).Floor;
    var row := ((worldY - (p.y * TILE_PIXELS) as real) / 16.0).Floor;
    if column < 0 || column >= room.width || row < 0 || row >= room.height { return Nothing; }
    r := ReferenceOf(l, p.source, row * ROW + SourceColumn(room.width, p.mirrored, column));
  }

  /** The pixels of a map cell. */
  predicate InTile(cx: nat, cy: nat, worldX: real, worldY: real) {
    && (cx * TILE_PIXELS) as real <= worldX < ((cx + 1) * TILE_PIXELS) as real
    && (cy * TILE_PIXELS) as real <= worldY < ((cy + 1) * TILE_PIXELS) as real
  }

  lemma PixelOfTile(c: nat, w: real)
    requires (c * TILE_PIXELS) as real <= w < ((c + 1) * TILE_PIXELS) as real
    ensures c * TILE_PIXELS <= w.Floor < (c + 1) * TILE_PIXELS
  {
  }

  lemma ColumnOfTile(start: nat, c: nat, w: real)
    requires (c * TILE_PIXELS) as real <= w < ((c + 1) * TILE_PIXELS) as real
    ensures ((w - (start * TILE_PIXELS) as real) / 16.0).Floor == c - start
  {
    var t := (w - (start * TILE_PIXELS) as real) / 16.0;
    assert (c - start) as real <= t < (c - start + 1) as real;
  }

  lemma {:induction false} PixelFindsRoom(l: Layout, k: nat, cx: nat, cy: nat, px: int, py: int)
    requires ValidLayout(l) && k <= |l.placed|
    requires cx * TILE_PIXELS <= px < (cx + 1) * TILE_PIXELS && cy * TILE_PIXELS <= py < (cy + 1) * TILE_PIXELS
    ensures RoomAtPixel(l, k, px, py) == RoomFrom(l, k, cx, cy)
    decreases |l.placed| - k
  {
    if k < |l.placed| {
      assert PlacedInside(l, k);
      PixelFindsRoom(l, k + 1, cx, cy, px, py);
    }
  }

  /** At every pixel of a cell covered by a room the lookup answers with the authored cell that was plotted there. */
  lemma LookupFindsPlottedCell(l: Layout, k: nat, cx: nat, cy: nat, worldX: real, worldY: real)
    requires ValidLayout(l) && Covers(l, k, cx, cy) && InTile(cx, cy, worldX, worldY) && worldX < WORLD_X_LIMIT
    ensures TileAtWorld(l, worldX, worldY) == ReferenceOf(l, l.placed[k].source, SourceIndex(l, k, cx, cy))
  {
    PixelOfTile(cx, worldX);
    PixelOfTile(cy, worldY);
    PixelFindsRoom(l, 0, cx, cy, worldX.Floor, worldY.Floor);
    RoomIsUnique(l, k, cx, cy);
    ColumnOfTile(l.placed[k].x, cx, worldX);
    ColumnOfTile(l.placed[k].y, cy, worldY);
    hide ValidLayout, RoomFrom, RoomAtPixel, ReferenceOf;
  }

  /** Where no room is, nothing is found. */
  lemma LookupFindsNothing(l: Layout, cx: nat, cy: nat, worldX: real, worldY: real)
    requires ValidLayout(l) && RoomAt(l, cx, cy) == |l.placed| && InTile(cx, cy, worldX, worldY)
    ensures TileAtWorld(l, worldX, worldY) == Nothing
  {
    PixelOfTile(cx, worldX);
    PixelOfTile(cy, worldY);
    PixelFindsRoom(l, 0, cx, cy, worldX.Floor, worldY.Floor);
  }
}
