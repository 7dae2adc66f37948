/**
 The per-map tile cache: cells point to definitions copied from the registry, and the
 copies are refreshed when the registry's generation has moved. The cache is compared
 with an ideal map that keeps only what was bound and asks the registry every time.
 Every call is one step: nothing else happens between its lookups.
 */
module ContentTiles {
  import opened Common
  import opened ContentModel
  import R = ContentRegistry
  import A = Animation

  const DEFINITIONS_MAX := 65535
  const SIZE_MAX := 0xFFFF_FFFF
  const CELL_BYTES := 4
  const STRIDE := 4
  const RENDER_MODE := 2
  const REFRESH_ATTEMPTS := 8

  /** The published registry: its tiles and the generation that counts its changes. */
  datatype Published = Published(tiles: seq<Tile>, generation: nat)

  datatype Cell = Empty | Bound(definition: nat, mirrored: bool, seed: nat)

  /** A cached definition, and the native glyph the map was generated with when it was first bound. */
  datatype Entry = Entry(definition: Tile, native: char, valid: bool)

  datatype Grid = NoMap | Grid(address: nat, width: nat, height: nat)

  datatype Cache = Cache(grid: Grid, cells: seq<Cell>, entries: seq<Entry>, generation: nat)

  datatype Interaction = Interaction(
    key: string, cellIndex: nat, x: nat, y: nat, mirrored: bool, collision: nat, forceMode: nat, forceAxes: nat,
    forceX: real, forceY: real, maxSpeedX: real, maxSpeedY: real)

  datatype Render = Render(owner: string, key: string, cellIndex: nat, sheet: string, sprite: int, layer: int,
                           look: Look, flipX: bool, underlay: bool)

  // ------------------------------------------------------------ the grid

  /** The number of cells of a map, None when there is no map or it is too large. */
  function CellCount(address: nat, width: int, height: int): Option<nat> {
    if address == 0 || width <= 0 || height <= 0 || width > SIZE_MAX / height then None
    else if width * height > SIZE_MAX / CELL_BYTES then None
    else Some(width * height)
  }

  predicate InGrid(g: Grid, x: int, y: int) {
    g.Grid? && 0 <= x < g.width && 0 <= y < g.height
  }

  function CellIndex(g: Grid, x: int, y: int): (i: nat)
    requires InGrid(g, x, y)
  {
    Products(y, g.width);
    y * g.width + x
  }

  lemma Products(a: int, b: int)
    requires a >= 0 && b >= 0
    ensures a * b >= 0
  {
  }

  predicate ValidGrid(g: Grid, cells: nat) {
    g.Grid? ==> 0 < g.width && 0 < g.height && g.width * g.height == cells && 0 < g.address
  }

  lemma IndexInGrid(g: Grid, cells: nat, x: int, y: int)
    requires ValidGrid(g, cells) && InGrid(g, x, y)
    ensures CellIndex(g, x, y) < cells
  {
    assert y * g.width + g.width == (y + 1) * g.width;
    Products(g.height - (y + 1), g.width);
    assert (g.height - (y + 1)) * g.width == g.height * g.width - (y + 1) * g.width;
  }

  // ------------------------------------------------------- cache operations

  function Inactive(): Cache { Cache(NoMap, [], [], 0) }

  function Begun(c: Cache, address: nat, width: int, height: int, generation: nat): Option<Cache> {
    match CellCount(address, width, height)
    case None => None
    case Some(count) => Some(Cache(Grid(address, width, height), seq(count, _ => Empty), [], generation))
  }

  /** The entry of a key, |entries| if there is none. */
  function EntryOf(entries: seq<Entry>, key: string): (d: nat)
    ensures d <= |entries| && (d < |entries| ==> entries[d].definition.key == key)
    ensures forall i :: 0 <= i < d ==> entries[i].definition.key != key
  {
    if entries == [] then 0
    else
      var d := EntryOf(entries[..|entries| - 1], key);
      if d < |entries| - 1 then d
      else if entries[|entries| - 1].definition.key == key then |entries| - 1
      else |entries|
  }

  /** The eight bits a cell's animation phase starts from. */
  function PhaseSeed(key: string, x: nat, y: nat): (seed: nat)
    ensures seed < 256
  {
    var h := Hashed(Hashed(HashedText(2166136261, key), x % TWO32), y % TWO32);
    Folded(h)
  }

  function Folded(h: bv32): (seed: nat)
    ensures seed < 256
  {
    (h ^ (h >> 8) ^ (h >> 16) ^ (h >> 24)) as nat % 256
  }

  function Hashed(h: bv32, n: nat): bv32
    requires n < TWO32
  {
    (h ^ (n as bv32)) * 16777619
  }

  function HashedText(h: bv32, s: string): bv32
    decreases |s|
  {
    if s == "" then h else HashedText(Hashed(h, s[0] as nat % 256), s[1..])
  }

  lemma HashStep(h: bv32, c: char, rest: string)
    requires c as nat < 256
    ensures HashedText(h, [c] + rest) == HashedText(Hashed(h, c as nat), rest)
  {
    assert ([c] + rest)[1..] == rest && ([c] + rest)[0] == c;
    hide Hashed;
  }

  lemma HashOfA()
    ensures Hashed(0x811C9DC5, 0x61) == 0xE40C292C
  {
  }

  lemma HashOfFoo()
    ensures Hashed(0x811C9DC5, 0x66) == 0xE30C2799
    ensures Hashed(0xE30C2799, 0x6F) == 0x6222E842
    ensures Hashed(0x6222E842, 0x6F) == 0xA9F37ED7
  {
  }

  lemma HashOfBar()
    ensures Hashed(0xA9F37ED7, 0x62) == 0x3F5076EF
    ensures Hashed(0x3F5076EF, 0x61) == 0x39AAA18A
    ensures Hashed(0x39AAA18A, 0x72) == 0xBF9CF968
  {
  }

  /** The hash is 32-bit FNV-1a; these are three of its published test vectors. */
  lemma HashIsFnv1a()
    ensures HashedText(2166136261, "") == 0x811C9DC5
    ensures HashedText(2166136261, "a") == 0xE40C292C
    ensures HashedText(2166136261, "foobar") == 0xBF9CF968
  {
    hide Hashed;
    HashOfA();
    HashOfFoo();
    HashOfBar();
    HashStep(0x811C9DC5, 'a', "");
    HashStep(0x811C9DC5, 'f', "oobar");
    HashStep(0xE30C2799, 'o', "obar");
    HashStep(0x6222E842, 'o', "bar");
    HashStep(0xA9F37ED7, 'b', "ar");
    HashStep(0x3F5076EF, 'a', "r");
    HashStep(0x39AAA18A, 'r', "");
    assert ['a'] + "" == "a" && ['f'] + "oobar" == "foobar" && ['o'] + "obar" == "oobar" && ['o'] + "bar" == "obar";
    assert ['b'] + "ar" == "bar" && ['a'] + "r" == "ar" && ['r'] + "" == "r";
  }

  lemma HashOfOneAndTwo()
    ensures Hashed(0xE40C292C, 1) == 0x2C24D1D7
    ensures Hashed(0x2C24D1D7, 2) == 0x52F6524F
  {
  }

  lemma FoldOfSeed()
    ensures Folded(0x52F6524F) == 185
  {
  }

  /** A cell's seed hashes the key and then both coordinates, and folds the four bytes of the hash into one. */
  lemma SeedOfACell()
    ensures PhaseSeed("a", 1, 2) == 185
  {
    HashIsFnv1a();
    HashOfOneAndTwo();
    FoldOfSeed();
    hide Hashed, HashedText, Folded;
  }

  function BindCell(c: Cache, x: int, y: int, t: Tile, d: nat, mirrored: bool): Cache
    requires InGrid(c.grid, x, y) && ValidGrid(c.grid, |c.cells|)
  {
    IndexInGrid(c.grid, |c.cells|, x, y);
    c.(cells := c.cells[CellIndex(c.grid, x, y) := Bound(d, mirrored, PhaseSeed(t.key, x, y))])
  }

  /** Binding a key to a cell; None leaves the cache alone. */
  function CellSet(c: Cache, p: Published, x: int, y: int, key: string, mirrored: bool): Option<Cache>
    requires ValidGrid(c.grid, |c.cells|)
  {
    if key == "" then None
    else
      match R.Found(p.tiles, key)
      case None => None
      case Some(t) =>
        if !InGrid(c.grid, x, y) then None
        else
          var d := EntryOf(c.entries, t.key);
          if d < |c.entries| then Some(BindCell(c, x, y, t, d, mirrored))
          else if |c.entries| >= DEFINITIONS_MAX then None
          else Some(BindCell(c.(entries := c.entries + [Entry(t, t.body.native, true)]), x, y, t, d, mirrored))
  }

  function CellCleared(c: Cache, x: int, y: int): Option<Cache>
    requires ValidGrid(c.grid, |c.cells|)
  {
    if !InGrid(c.grid, x, y) then None
    else
      IndexInGrid(c.grid, |c.cells|, x, y);
      Some(c.(cells := c.cells[CellIndex(c.grid, x, y) := Empty]))
  }

  /** One entry looked up again: replaced if the registry still has it with the same native glyph. */
  function RefreshedEntry(e: Entry, tiles: seq<Tile>): Entry {
    match R.Found(tiles, e.definition.key)
    case Some(t) => if t.body.native == e.native then Entry(t, e.native, true) else e.(valid := false)
    case None => e.(valid := false)
  }

  function Refreshed(c: Cache, p: Published): Cache {
    c.(entries := seq(|c.entries|, i requires 0 <= i < |c.entries| => RefreshedEntry(c.entries[i], p.tiles)),
       generation := p.generation)
  }

  function ValidCount(entries: seq<Entry>): nat {
    if entries == [] then 0
    else ValidCount(entries[..|entries| - 1]) + if entries[|entries| - 1].valid then 1 else 0
  }

  /** Lookups refresh a cache that is not current first. */
  function Current(c: Cache, p: Published): Cache {
    if c.grid.Grid? && c.generation != p.generation then Refreshed(c, p) else c
  }

  /** The cell and its valid entry at an index. */
  function Bindings(c: Cache, i: nat): Option<(Cell, Entry)>
    requires i < |c.cells|
  {
    match c.cells[i]
    case Empty => None
    case Bound(d, _, _) =>
      if d >= |c.entries| || !c.entries[d].valid then None else Some((c.cells[i], c.entries[d]))
  }

  function InteractionOf(t: Tile, mirrored: bool, index: nat, x: nat, y: nat): Interaction {
    var b := t.body;
    Interaction(t.key, index, x, y, mirrored, b.collision, b.forceMode, b.forceAxes,
                if mirrored && b.mirrorWithRoom then -b.forceX else b.forceX, b.forceY, b.maxSpeedX, b.maxSpeedY)
  }

  /** What a cell does, from a current cache. */
  function InteractionAt(c: Cache, x: int, y: int): Option<Interaction>
    requires ValidGrid(c.grid, |c.cells|)
  {
    if !InGrid(c.grid, x, y) then None
    else
      IndexInGrid(c.grid, |c.cells|, x, y);
      var i := CellIndex(c.grid, x, y);
      match Bindings(c, i)
      case None => None
      case Some((cell, e)) => Some(InteractionOf(e.definition, cell.mirrored, i, x, y))
  }

  /** The cell a pointer into the native tilemap stands for; a coordinate below zero is not checked. */
  function CellOfPointer(c: Cache, pointer: nat, x: int, y: int): (r: Option<nat>)
    requires ValidGrid(c.grid, |c.cells|)
    ensures r.Some? ==> r.value < |c.cells|
  {
    if c.grid.NoMap? || pointer < c.grid.address || (pointer - c.grid.address) % STRIDE != 0 then None
    else
      var i := (pointer - c.grid.address) / STRIDE;
      if i >= |c.cells| then None
      else if (x >= 0 && x != i % c.grid.width) || (y >= 0 && y != i / c.grid.width) then None
      else Some(i)
  }

  function RenderOf(t: Tile, mirrored: bool, seed: nat, index: nat, tick: nat): Render {
    var b := t.body;
    Render(t.owner, t.key, index, b.sheet, b.spriteIndex + A.TileFrame(b, seed, tick), b.layer, b.look,
           mirrored && b.mirrorWithRoom, b.underlay)
  }

  function RenderAt(c: Cache, pointer: nat, mode: int, x: int, y: int, tick: nat): Option<Render>
    requires ValidGrid(c.grid, |c.cells|)
  {
    if pointer == 0 || mode != RENDER_MODE then None
    else
      match CellOfPointer(c, pointer, x, y)
      case None => None
      case Some(i) =>
        match Bindings(c, i)
        case None => None
        case Some((cell, e)) => Some(RenderOf(e.definition, cell.mirrored, cell.seed, i, tick))
  }

  // ---------------------------------------------------------- the ideal map

  /** What was bound to a cell. */
  datatype Binding = Unbound | Binding(key: string, mirrored: bool, seed: nat)

  /** The bindings of a map and the native glyph each key had when this map first used it. No copies. */
  datatype Ideal = Ideal(grid: Grid, cells: seq<Binding>, first: map<string, char>)

  function IdealInactive(): Ideal { Ideal(NoMap, [], map[]) }

  function IdealBegun(address: nat, width: int, height: int): Option<Ideal> {
    match CellCount(address, width, height)
    case None => None
    case Some(count) => Some(Ideal(Grid(address, width, height), seq(count, _ => Unbound), map[]))
  }

  function IdealSet(m: Ideal, p: Published, x: int, y: int, key: string, mirrored: bool): Option<Ideal>
    requires ValidGrid(m.grid, |m.cells|)
  {
    if key == "" then None
    else
      match R.Found(p.tiles, key)
      case None => None
      case Some(t) =>
        if !InGrid(m.grid, x, y) || (t.key !in m.first && |m.first| >= DEFINITIONS_MAX) then None
        else
          IndexInGrid(m.grid, |m.cells|, x, y);
          Some(Ideal(m.grid, m.cells[CellIndex(m.grid, x, y) := Binding(t.key, mirrored, PhaseSeed(t.key, x, y))],
                     if t.key in m.first then m.first else m.first[t.key := t.body.native]))
  }

  function IdealCleared(m: Ideal, x: int, y: int): Option<Ideal>
    requires ValidGrid(m.grid, |m.cells|)
  {
    if !InGrid(m.grid, x, y) then None
    else
      IndexInGrid(m.grid, |m.cells|, x, y);
      Some(m.(cells := m.cells[CellIndex(m.grid, x, y) := Unbound]))
  }

  /** The registered tile a cell shows: the one of its key, if that still has the glyph the map was generated with. */
  function Shown(m: Ideal, p: Published, i: nat): Option<Tile>
    requires i < |m.cells|
  {
    if m.cells[i].Unbound? || m.cells[i].key !in m.first then None
    else
      match R.Found(p.tiles, m.cells[i].key)
      case None => None
      case Some(t) => if t.body.native == m.first[m.cells[i].key] then Some(t) else None
  }

  // ------------------------------------------------------------- refinement

  predicate EntriesAgree(c: Cache, m: Ideal) {
    && |m.first| == |c.entries|
    && (forall d :: 0 <= d < |c.entries| ==>
          && c.entries[d].definition.key in m.first
          && m.first[c.entries[d].definition.key] == c.entries[d].native
          && NormalizeKey(c.entries[d].definition.key) == Some(c.entries[d].definition.key))
    && (forall d, e :: 0 <= d < e < |c.entries| ==> c.entries[d].definition.key != c.entries[e].definition.key)
    && (forall k :: k in m.first ==> EntryOf(c.entries, k) < |c.entries|)
  }

  predicate CellAgrees(c: Cache, m: Ideal, i: nat)
    requires i < |c.cells| == |m.cells|
  {
    match c.cells[i]
    case Empty => m.cells[i].Unbound?
    case Bound(d, mirrored, seed) =>
      d < |c.entries| && m.cells[i] == Binding(c.entries[d].definition.key, mirrored, seed)
  }

  /** The cache stands for the ideal map. */
  predicate Represents(c: Cache, m: Ideal) {
    && c.grid == m.grid && |c.cells| == |m.cells| && ValidGrid(c.grid, |c.cells|)
    && EntriesAgree(c, m)
    && forall i :: 0 <= i < |c.cells| ==> CellAgrees(c, m, i)
  }

  /** An entry says what the registry says. */
  predicate UpToDate(e: Entry, tiles: seq<Tile>) {
    match R.Found(tiles, e.definition.key)
    case None => !e.valid
    case Some(t) => e.valid == (t.body.native == e.native) && (e.valid ==> e.definition == t)
  }

  /** A cache that carries the registry's generation is up to date; generations only grow. */
  predicate Follows(c: Cache, p: Published) {
    && c.generation <= p.generation
    && (c.generation == p.generation ==> forall d :: 0 <= d < |c.entries| ==> UpToDate(c.entries[d], p.tiles))
  }

  lemma RefreshedEntryIsUpToDate(e: Entry, tiles: seq<Tile>)
    requires NormalizeKey(e.definition.key) == Some(e.definition.key)
    ensures UpToDate(RefreshedEntry(e, tiles), tiles)
    ensures RefreshedEntry(e, tiles).definition.key == e.definition.key && RefreshedEntry(e, tiles).native == e.native
  {
  }

  lemma {:induction false} SameKeysSameEntry(a: seq<Entry>, b: seq<Entry>, key: string)
    requires |a| == |b| && forall d :: 0 <= d < |a| ==> a[d].definition.key == b[d].definition.key
    ensures EntryOf(a, key) == EntryOf(b, key)
  {
    if a != [] { SameKeysSameEntry(a[..|a| - 1], b[..|b| - 1], key); }
  }

  /** Cells agree as long as the entries they point to keep their keys. */
  lemma CellsKept(c: Cache, c': Cache, m: Ideal, m': Ideal)
    requires |c.cells| == |m.cells| && c'.cells == c.cells && m'.cells == m.cells && |c.entries| <= |c'.entries|
    requires forall d :: 0 <= d < |c.entries| ==> c'.entries[d].definition.key == c.entries[d].definition.key
    requires forall i :: 0 <= i < |c.cells| ==> CellAgrees(c, m, i)
    ensures forall i :: 0 <= i < |c.cells| ==> CellAgrees(c', m', i)
  {
    forall i | 0 <= i < |c.cells| ensures CellAgrees(c', m', i) { assert CellAgrees(c, m, i); }
  }

  lemma EntriesKept(c: Cache, c': Cache, m: Ideal)
    requires EntriesAgree(c, m) && |c.entries| == |c'.entries|
    requires forall d :: 0 <= d < |c.entries| ==> c'.entries[d].definition.key == c.entries[d].definition.key
    requires forall d :: 0 <= d < |c.entries| ==> c'.entries[d].native == c.entries[d].native
    ensures EntriesAgree(c', m)
  {
    hide EntryOf, NormalizeKey;
    forall k | k in m.first ensures EntryOf(c'.entries, k) < |c'.entries| { SameKeysSameEntry(c.entries, c'.entries, k); }
  }

  lemma RefreshKeeps(c: Cache, m: Ideal, p: Published)
    requires Represents(c, m)
    ensures Represents(Refreshed(c, p), m) && Follows(Refreshed(c, p), p)
  {
    hide EntryOf, ValidGrid, CellAgrees, NormalizeKey;
    var r := Refreshed(c, p);
    forall d | 0 <= d < |c.entries|
      ensures UpToDate(r.entries[d], p.tiles)
      ensures r.entries[d].definition.key == c.entries[d].definition.key && r.entries[d].native == c.entries[d].native
    {
      RefreshedEntryIsUpToDate(c.entries[d], p.tiles);
    }
    hide RefreshedEntry, UpToDate;
    assert r.cells == c.cells && r.grid == c.grid && r.generation == p.generation && |r.entries| == |c.entries|;
    hide Refreshed;
    EntriesKept(c, r, m);
    CellsKept(c, r, m, m);
    hide EntriesAgree;
  }

  // ------------------------------------------------ a refresh amid commits

  /** The registry moment by moment: its generation never falls, and one generation means one set of tiles. */
  ghost predicate Historical(h: nat -> Published) {
    forall s: nat, t: nat :: s <= t ==>
      h(s).generation <= h(t).generation && (h(s).generation == h(t).generation ==> h(s) == h(t))
  }

  /** The entries looked up again one after the other, the first at moment t. */
  function Pass(entries: seq<Entry>, h: nat -> Published, t: nat): (r: seq<Entry>)
    ensures |r| == |entries|
  {
    seq(|entries|, i requires 0 <= i < |entries| => RefreshedEntry(entries[i], h(t + i).tiles))
  }

  /** The moment at which a pass that began by reading the generation at t reads it again. */
  function PassEnd(c: Cache, t: nat): nat { t + 1 + |c.entries| }

  /** A refresh of up to n passes, each access to the registry one moment after the last. Only a pass over which the
      generation did not move labels the cache; after the last one the cache is labelled 0, which no registry is. The
      second part is the moment after the last access. */
  function RefreshedAmid(c: Cache, h: nat -> Published, t: nat, n: nat): (r: (Cache, nat))
    decreases n
  {
    if n == 0 then (c.(generation := 0), t)
    else
      var end := PassEnd(c, t);
      var c1 := c.(entries := Pass(c.entries, h, t + 1));
      if h(end).generation == h(t).generation then (c1.(generation := h(t).generation), end + 1)
      else RefreshedAmid(c1, h, end + 1, n - 1)
  }

  lemma AmidStep(c: Cache, h: nat -> Published, t: nat, n: nat)
    requires n > 0
    ensures var end := PassEnd(c, t);
            var c1 := c.(entries := Pass(c.entries, h, t + 1));
            RefreshedAmid(c, h, t, n) ==
              if h(end).generation == h(t).generation then (c1.(generation := h(t).generation), end + 1)
              else RefreshedAmid(c1, h, end + 1, n - 1)
  {
    hide Pass;
  }

  lemma AmidEnd(c: Cache, h: nat -> Published, t: nat)
    ensures RefreshedAmid(c, h, t, 0) == (c.(generation := 0), t)
  {
  }

  lemma PassIs(before: seq<Entry>, after: seq<Entry>, h: nat -> Published, t: nat)
    requires |after| == |before| && forall k :: 0 <= k < |before| ==> after[k] == RefreshedEntry(before[k], h(t + k).tiles)
    ensures after == Pass(before, h, t)
  {
    hide RefreshedEntry;
  }

  lemma PassKeeps(c: Cache, m: Ideal, h: nat -> Published, t: nat)
    requires Represents(c, m)
    ensures Represents(c.(entries := Pass(c.entries, h, t)), m)
  {
    hide EntryOf, ValidGrid, CellAgrees, NormalizeKey;
    var c1 := c.(entries := Pass(c.entries, h, t));
    forall d | 0 <= d < |c.entries|
      ensures c1.entries[d].definition.key == c.entries[d].definition.key && c1.entries[d].native == c.entries[d].native
    {
      RefreshedEntryIsUpToDate(c.entries[d], h(t + d).tiles);
    }
    hide RefreshedEntry;
    EntriesKept(c, c1, m);
    CellsKept(c, c1, m, m);
    hide EntriesAgree;
  }

  lemma QuietPassIsRefresh(c: Cache, h: nat -> Published, t: nat)
    requires forall s: nat :: t <= s <= PassEnd(c, t) ==> h(s) == h(t)
    ensures c.(entries := Pass(c.entries, h, t + 1), generation := h(t).generation) == Refreshed(c, h(t))
  {
  }

  lemma QuietBetween(h: nat -> Published, t: nat, end: nat)
    requires Historical(h) && h(end).generation == h(t).generation
    ensures forall s: nat :: t <= s <= end ==> h(s) == h(t)
  {
  }

  lemma FollowsLater(c: Cache, h: nat -> Published, t: nat)
    requires Historical(h) && Follows(c, h(t))
    ensures forall s: nat :: t <= s ==> Follows(c, h(s))
  {
    hide UpToDate;
    forall s: nat | t <= s ensures Follows(c, h(s)) { assert h(t).generation <= h(s).generation; }
  }

  /** However commits interleave with a refresh, the cache is never labelled with a generation it is not up to date
      with: it goes on standing for the ideal map, and follows the registry from the last access on. */
  lemma {:induction false} RefreshNeverMislabels(c: Cache, m: Ideal, h: nat -> Published, t: nat, n: nat)
    requires Historical(h) && h(t).generation > 0 && Represents(c, m)
    ensures var (c', end) := RefreshedAmid(c, h, t, n);
            Represents(c', m) && t <= end && forall s: nat :: end <= s ==> Follows(c', h(s))
    decreases n
  {
    hide Represents, UpToDate, Pass, Refreshed;
    if n == 0 {
      RelabelKeeps(c, m);
      forall s: nat | t <= s ensures Follows(c.(generation := 0), h(s)) { assert h(t).generation <= h(s).generation; }
    } else {
      var end := PassEnd(c, t);
      if h(end).generation == h(t).generation {
        QuietBetween(h, t, end);
        QuietPassIsRefresh(c, h, t);
        RefreshKeeps(c, m, h(t));
        FollowsLater(Refreshed(c, h(t)), h, t);
      } else {
        PassKeeps(c, m, h, t + 1);
        assert h(t).generation <= h(end + 1).generation;
        RefreshNeverMislabels(c.(entries := Pass(c.entries, h, t + 1)), m, h, end + 1, n - 1);
      }
    }
  }

  lemma RelabelKeeps(c: Cache, m: Ideal)
    requires Represents(c, m)
    ensures Represents(c.(generation := 0), m)
  {
    hide CellAgrees, EntryOf, NormalizeKey, ValidGrid;
    EntriesKept(c, c.(generation := 0), m);
    CellsKept(c, c.(generation := 0), m, m);
    hide EntriesAgree;
  }

  /** Left alone, one pass is enough. */
  lemma QuietRefresh(c: Cache, h: nat -> Published, t: nat, n: nat)
    requires n > 0 && forall s: nat :: t <= s <= PassEnd(c, t) ==> h(s) == h(t)
    ensures RefreshedAmid(c, h, t, n) == (Refreshed(c, h(t)), PassEnd(c, t) + 1)
  {
    QuietPassIsRefresh(c, h, t);
  }

  lemma CurrentKeeps(c: Cache, m: Ideal, p: Published)
    requires Represents(c, m) && Follows(c, p)
    ensures Represents(Current(c, p), m) && Follows(Current(c, p), p)
    ensures c.grid.Grid? ==> Current(c, p).generation == p.generation
  {
    hide Represents, Follows;
    RefreshKeeps(c, m, p);
  }

  lemma BeginKeeps(c: Cache, address: nat, width: int, height: int, p: Published)
    ensures Begun(c, address, width, height, p.generation).Some? == IdealBegun(address, width, height).Some?
    ensures Begun(c, address, width, height, p.generation).Some? ==>
      var (c', m') := (Begun(c, address, width, height, p.generation).value, IdealBegun(address, width, height).value);
      Represents(c', m') && Follows(c', p)
  {
  }

  lemma ClearKeeps(c: Cache, m: Ideal, p: Published, x: int, y: int)
    requires Represents(c, m) && Follows(c, p)
    ensures CellCleared(c, x, y).Some? == IdealCleared(m, x, y).Some?
    ensures CellCleared(c, x, y).Some? ==>
      Represents(CellCleared(c, x, y).value, IdealCleared(m, x, y).value) && Follows(CellCleared(c, x, y).value, p)
  {
    hide UpToDate, EntryOf, NormalizeKey, CellIndex, ValidGrid;
    if InGrid(c.grid, x, y) {
      IndexInGrid(c.grid, |c.cells|, x, y);
      var i := CellIndex(c.grid, x, y);
      var (c', m') := (CellCleared(c, x, y).value, IdealCleared(m, x, y).value);
      assert c' == c.(cells := c.cells[i := Empty]) && m' == m.(cells := m.cells[i := Unbound]);
      assert CellAgrees(c', m', i);
      hide CellAgrees, CellCleared, IdealCleared;
      CellsRebound(c, c', m, m', i, Empty, Unbound);
      assert EntriesAgree(c', m');
      hide EntriesAgree;
    }
  }

  lemma EntryOfAppended(entries: seq<Entry>, e: Entry, key: string)
    ensures EntryOf(entries + [e], key) ==
            if EntryOf(entries, key) < |entries| then EntryOf(entries, key)
            else if e.definition.key == key then |entries| else |entries| + 1
  {
    assert (entries + [e])[..|entries|] == entries;
  }

  lemma NewEntryAgrees(c: Cache, m: Ideal, t: Tile)
    requires EntriesAgree(c, m) && EntryOf(c.entries, t.key) == |c.entries| && NormalizeKey(t.key) == Some(t.key)
    ensures t.key !in m.first
    ensures EntriesAgree(c.(entries := c.entries + [Entry(t, t.body.native, true)]), m.(first := m.first[t.key := t.body.native]))
  {
    hide EntryOf, NormalizeKey;
    var added := c.entries + [Entry(t, t.body.native, true)];
    forall k | k in m.first[t.key := t.body.native] ensures EntryOf(added, k) < |added| {
      EntryOfAppended(c.entries, Entry(t, t.body.native, true), k);
    }
  }

  /** A key the map has not used before gets a new entry. */
  lemma NewEntryKeeps(c: Cache, m: Ideal, p: Published, t: Tile)
    requires Represents(c, m) && Follows(c, p) && EntryOf(c.entries, t.key) == |c.entries|
    requires R.Found(p.tiles, t.key) == Some(t) && NormalizeKey(t.key) == Some(t.key)
    ensures t.key !in m.first
    ensures var c' := c.(entries := c.entries + [Entry(t, t.body.native, true)]);
            Represents(c', m.(first := m.first[t.key := t.body.native])) && Follows(c', p)
  {
    hide EntryOf, NormalizeKey, CellAgrees, ValidGrid;
    NewEntryAgrees(c, m, t);
    var c' := c.(entries := c.entries + [Entry(t, t.body.native, true)]);
    var m' := m.(first := m.first[t.key := t.body.native]);
    CellsKept(c, c', m, m');
    assert UpToDate(c'.entries[|c.entries|], p.tiles);
    hide EntriesAgree, UpToDate;
  }

  lemma CellsRebound(c: Cache, c': Cache, m: Ideal, m': Ideal, i: nat, x: Cell, y: Binding)
    requires |c.cells| == |m.cells| && i < |c.cells| && c'.entries == c.entries
    requires c'.cells == c.cells[i := x] && m'.cells == m.cells[i := y]
    requires forall j :: 0 <= j < |c.cells| ==> CellAgrees(c, m, j)
    requires CellAgrees(c', m', i)
    ensures forall j :: 0 <= j < |c.cells| ==> CellAgrees(c', m', j)
  {
    forall j | 0 <= j < |c.cells| ensures CellAgrees(c', m', j) { assert CellAgrees(c, m, j); }
  }

  lemma BindKeeps(c: Cache, m: Ideal, p: Published, x: int, y: int, t: Tile, d: nat, mirrored: bool)
    requires Represents(c, m) && Follows(c, p) && InGrid(c.grid, x, y)
    requires d < |c.entries| && c.entries[d].definition.key == t.key
    ensures CellIndex(m.grid, x, y) < |m.cells|
    ensures var b := Binding(t.key, mirrored, PhaseSeed(t.key, x, y));
            Represents(BindCell(c, x, y, t, d, mirrored), m.(cells := m.cells[CellIndex(m.grid, x, y) := b]))
    ensures Follows(BindCell(c, x, y, t, d, mirrored), p)
  {
    hide CellIndex, ValidGrid, PhaseSeed, UpToDate, EntryOf, NormalizeKey;
    IndexInGrid(c.grid, |c.cells|, x, y);
    var i := CellIndex(c.grid, x, y);
    var c' := BindCell(c, x, y, t, d, mirrored);
    var m' := m.(cells := m.cells[i := Binding(t.key, mirrored, PhaseSeed(t.key, x, y))]);
    assert CellAgrees(c', m', i);
    assert c'.cells == c.cells[i := c'.cells[i]] && m'.cells == m.cells[i := m'.cells[i]];
    hide CellAgrees, BindCell;
    CellsRebound(c, c', m, m', i, c'.cells[i], m'.cells[i]);
    assert EntriesAgree(c', m');
    hide EntriesAgree;
  }

  lemma SetKeeps(c: Cache, m: Ideal, p: Published, x: int, y: int, key: string, mirrored: bool)
    requires Represents(c, m) && Follows(c, p) && R.ValidTiles(p.tiles)
    ensures CellSet(c, p, x, y, key, mirrored).Some? == IdealSet(m, p, x, y, key, mirrored).Some?
    ensures CellSet(c, p, x, y, key, mirrored).Some? ==>
      var (c', m') := (CellSet(c, p, x, y, key, mirrored).value, IdealSet(m, p, x, y, key, mirrored).value);
      Represents(c', m') && Follows(c', p)
  {
    hide Represents, Follows, ValidGrid, CellIndex, EntryOf, PhaseSeed, R.Found, BindCell, R.ValidTiles;
    SameGrid(c, m);
    var found := R.Found(p.tiles, key);
    if key != "" && found.Some? && InGrid(c.grid, x, y) {
      var t := found.value;
      FoundIsNormal(p.tiles, key);
      KnownKey(c, m, t.key);
      var d := EntryOf(c.entries, t.key);
      if d < |c.entries| {
        BindKeeps(c, m, p, x, y, t, d, mirrored);
      } else {
        NewEntryKeeps(c, m, p, t);
        var c1 := c.(entries := c.entries + [Entry(t, t.body.native, true)]);
        var m1 := m.(first := m.first[t.key := t.body.native]);
        BindKeeps(c1, m1, p, x, y, t, d, mirrored);
      }
    }
  }

  lemma SameGrid(c: Cache, m: Ideal)
    requires Represents(c, m)
    ensures c.grid == m.grid && |c.cells| == |m.cells| && ValidGrid(c.grid, |c.cells|)
  {
  }

  lemma KnownKey(c: Cache, m: Ideal, key: string)
    requires Represents(c, m)
    ensures |m.first| == |c.entries|
    ensures var d := EntryOf(c.entries, key);
            (key in m.first <==> d < |c.entries|) && (d < |c.entries| ==> c.entries[d].definition.key == key)
  {
    hide CellAgrees, ValidGrid;
  }

  /** A found tile is found again under its own key. */
  lemma FoundIsNormal(tiles: seq<Tile>, key: string)
    requires R.ValidTiles(tiles) && R.Found(tiles, key).Some?
    ensures var t := R.Found(tiles, key).value; NormalizeKey(t.key) == Some(t.key) && R.Found(tiles, t.key) == Some(t)
  {
    var t := R.Found(tiles, key).value;
    var i :| 0 <= i < |tiles| && tiles[i] == t;
    assert R.WellKeyed(t);
    NormalKeys(t.owner, t.localId);
    R.FoundIsUnique(tiles);
  }

  // ------------------------------------------------------------------ runs

  datatype World = World(published: Published, cache: Cache, ideal: Ideal)

  /** The calls that can happen: on the registry, on the map, and lookups, which may refresh the cache. */
  datatype Call =
    | Commit(replacements: seq<R.Replacement>) | CloseRegistry
    | Begin(address: nat, width: int, height: int) | End
    | Set(x: int, y: int, key: string, mirrored: bool) | Clear(x: int, y: int)
    | Refresh | LookUp

  function Fresh(): World { World(Published([], 1), Inactive(), IdealInactive()) }

  predicate Possible(call: Call) { call.Commit? ==> R.ValidReplacements(call.replacements) }

  ghost predicate Sound(w: World) {
    && R.ValidTiles(w.published.tiles) && w.published.generation > 0
    && Represents(w.cache, w.ideal) && Follows(w.cache, w.published)
  }

  /** A failed call changes nothing. */
  function Step(w: World, call: Call): World
    requires ValidGrid(w.cache.grid, |w.cache.cells|) && ValidGrid(w.ideal.grid, |w.ideal.cells|)
  {
    var (p, c, m) := (w.published, w.cache, w.ideal);
    match call
    case Commit(txs) =>
      var after := R.Committed(p.tiles, txs);
      if after.None? || txs == [] then w else w.(published := Published(after.value, p.generation + 1))
    case CloseRegistry => w.(published := Published([], p.generation + 1))
    case Begin(address, width, height) =>
      var (c', m') := (Begun(c, address, width, height, p.generation), IdealBegun(address, width, height));
      w.(cache := if c'.Some? then c'.value else c, ideal := if m'.Some? then m'.value else m)
    case End => w.(cache := Inactive(), ideal := IdealInactive())
    case Set(x, y, key, mirrored) =>
      var (c', m') := (CellSet(c, p, x, y, key, mirrored), IdealSet(m, p, x, y, key, mirrored));
      w.(cache := if c'.Some? then c'.value else c, ideal := if m'.Some? then m'.value else m)
    case Clear(x, y) =>
      var (c', m') := (CellCleared(c, x, y), IdealCleared(m, x, y));
      w.(cache := if c'.Some? then c'.value else c, ideal := if m'.Some? then m'.value else m)
    case Refresh => w.(cache := Refreshed(c, p))
    case LookUp => w.(cache := Current(c, p))
  }

  lemma StepIsSound(w: World, call: Call)
    requires Sound(w) && Possible(call)
    ensures ValidGrid(w.cache.grid, |w.cache.cells|) && ValidGrid(w.ideal.grid, |w.ideal.cells|)
    ensures Sound(Step(w, call))
  {
    SameGrid(w.cache, w.ideal);
    if call.Commit? || call.CloseRegistry? {
      RegistryStepIsSound(w, call);
    } else if call.Begin? || call.End? {
      MapStepIsSound(w, call);
    } else {
      CellStepIsSound(w, call);
    }
  }

  /** So is a refresh amid any commits, from its last access to the registry on. */
  lemma RefreshAmidIsSound(w: World, h: nat -> Published, t: nat, n: nat, now: nat)
    requires Sound(w) && Historical(h) && h(t) == w.published && R.ValidTiles(h(now).tiles)
    requires RefreshedAmid(w.cache, h, t, n).1 <= now
    ensures Sound(World(h(now), RefreshedAmid(w.cache, h, t, n).0, w.ideal))
  {
    hide Represents, Follows, R.ValidTiles, RefreshedAmid;
    RefreshNeverMislabels(w.cache, w.ideal, h, t, n);
    assert h(t).generation <= h(now).generation;
  }

  lemma RegistryStepIsSound(w: World, call: Call)
    requires Sound(w) && Possible(call) && (call.Commit? || call.CloseRegistry?)
    requires ValidGrid(w.cache.grid, |w.cache.cells|) && ValidGrid(w.ideal.grid, |w.ideal.cells|)
    ensures Sound(Step(w, call))
  {
    hide Represents, R.ValidTiles, R.Committed, ValidGrid, Follows;
    NothingIsValid();
    PublishingKeeps(w.cache, w.published, Step(w, call).published);
    if call.Commit? { R.CommitReplacesOwners(w.published.tiles, call.replacements); }
  }

  lemma MapStepIsSound(w: World, call: Call)
    requires Sound(w) && (call.Begin? || call.End?)
    requires ValidGrid(w.cache.grid, |w.cache.cells|) && ValidGrid(w.ideal.grid, |w.ideal.cells|)
    ensures Sound(Step(w, call))
  {
    hide Represents, R.ValidTiles, Begun, IdealBegun, ValidGrid, Follows, Inactive, IdealInactive;
    InactiveIsSound(w.published);
    if call.Begin? { BeginKeeps(w.cache, call.address, call.width, call.height, w.published); }
  }

  lemma CellStepIsSound(w: World, call: Call)
    requires Sound(w) && (call.Set? || call.Clear? || call.Refresh? || call.LookUp?)
    requires ValidGrid(w.cache.grid, |w.cache.cells|) && ValidGrid(w.ideal.grid, |w.ideal.cells|)
    ensures Sound(Step(w, call))
  {
    hide Represents, R.ValidTiles, CellSet, IdealSet, CellCleared, IdealCleared, Refreshed, Current, ValidGrid, Follows;
    var (p, c, m) := (w.published, w.cache, w.ideal);
    if call.Set? { SetKeeps(c, m, p, call.x, call.y, call.key, call.mirrored); }
    if call.Clear? { ClearKeeps(c, m, p, call.x, call.y); }
    if call.Refresh? { RefreshKeeps(c, m, p); }
    if call.LookUp? { CurrentKeeps(c, m, p); }
  }

  lemma PublishingKeeps(c: Cache, p: Published, p': Published)
    requires Follows(c, p) && (p' == p || p'.generation > p.generation)
    ensures Follows(c, p')
  {
  }

  lemma NothingIsValid()
    ensures R.ValidTiles([])
  {
  }

  lemma InactiveIsSound(p: Published)
    requires p.generation > 0
    ensures Represents(Inactive(), IdealInactive()) && Follows(Inactive(), p)
  {
  }

  /** The world after a sequence of calls. */
  ghost function Run(calls: seq<Call>): (w: World)
    requires forall i :: 0 <= i < |calls| ==> Possible(calls[i])
    ensures Sound(w)
  {
    if calls == [] then
      NothingIsValid();
      InactiveIsSound(Fresh().published);
      Fresh()
    else
      var w := Run(calls[..|calls| - 1]);
      StepIsSound(w, calls[|calls| - 1]);
      Step(w, calls[|calls| - 1])
  }

  // -------------------------------------------------------------- theorems

  lemma BindingIsShown(c: Cache, m: Ideal, p: Published, i: nat)
    requires Represents(c, m) && Follows(c, p) && c.generation == p.generation && i < |c.cells|
    ensures Bindings(c, i).Some? <==> Shown(m, p, i).Some?
    ensures Bindings(c, i).Some? ==>
      var (cell, e) := Bindings(c, i).value;
      e.definition == Shown(m, p, i).value && m.cells[i] == Binding(e.definition.key, cell.mirrored, cell.seed)
  {
    hide EntryOf, ValidGrid, R.Found;
    assert CellAgrees(c, m, i);
    if c.cells[i].Bound? { assert UpToDate(c.entries[c.cells[i].definition], p.tiles); }
  }

  /** The interaction of a tile at a cell: every field the registry's, the horizontal force turned round exactly in
      mirrored cells of tiles that mirror with their room. */
  predicate Reports(r: Interaction, t: Tile, mirrored: bool, index: nat, x: nat, y: nat) {
    && r.key == t.key && (r.cellIndex, r.x, r.y, r.mirrored) == (index, x, y, mirrored)
    && (r.collision, r.forceMode, r.forceAxes) == (t.body.collision, t.body.forceMode, t.body.forceAxes)
    && (mirrored && t.body.mirrorWithRoom ==> r.forceX == -t.body.forceX)
    && (!mirrored || !t.body.mirrorWithRoom ==> r.forceX == t.body.forceX)
    && (r.forceY, r.maxSpeedX, r.maxSpeedY) == (t.body.forceY, t.body.maxSpeedX, t.body.maxSpeedY)
  }

  /** What is drawn for a tile: its sheet at the sprite its playhead has reached, flipped exactly in mirrored cells of
      tiles that mirror with their room. */
  predicate Draws(r: Render, t: Tile, cell: Binding, index: nat, tick: nat)
    requires cell.Binding?
  {
    && (r.owner, r.key, r.cellIndex, r.sheet) == (t.owner, t.key, index, t.body.sheet)
    && (r.layer, r.look, r.underlay) == (t.body.layer, t.body.look, t.body.underlay)
    && (t.body.frameCount > 0 && t.body.frameTicks > 0 ==>
          r.sprite == t.body.spriteIndex
                      + A.Played(t.body.animation, t.body.frameCount, A.TileSteps(t.body, cell.seed, tick)).frame)
    && (r.flipX <==> cell.mirrored && t.body.mirrorWithRoom)
  }

  lemma RenderDraws(t: Tile, cell: Binding, index: nat, tick: nat)
    requires cell.Binding?
    ensures Draws(RenderOf(t, cell.mirrored, cell.seed, index, tick), t, cell, index, tick)
  {
    if t.body.frameCount > 0 && t.body.frameTicks > 0 { A.TileFrameFollowsPlayhead(t.body, cell.seed, tick); }
    hide A.TileFrame, A.TileSteps, A.Played;
  }

  /** After any run, a lookup by coordinates succeeds exactly when the cell is bound and the registry now has its key
      with the glyph the map was generated with; then it reports the registry's own entry, with the horizontal force
      turned round exactly for mirrored cells of tiles that mirror with their room. */
  lemma LookupsShowTheRegistry(calls: seq<Call>, x: int, y: int)
    requires forall i :: 0 <= i < |calls| ==> Possible(calls[i])
    ensures var (p, m) := (Run(calls).published, Run(calls).ideal);
            ValidGrid(m.grid, |m.cells|) && (InGrid(m.grid, x, y) ==> CellIndex(m.grid, x, y) < |m.cells|)
    ensures var (p, m) := (Run(calls).published, Run(calls).ideal);
            var c := Current(Run(calls).cache, p);
            && ValidGrid(c.grid, |c.cells|)
            && (InteractionAt(c, x, y).Some? <==> InGrid(m.grid, x, y) && Shown(m, p, CellIndex(m.grid, x, y)).Some?)
            && (InteractionAt(c, x, y).Some? ==>
                  var i := CellIndex(m.grid, x, y);
                  Reports(InteractionAt(c, x, y).value, Shown(m, p, i).value, m.cells[i].mirrored, i, x, y))
  {
    hide Run, Represents, Follows, R.ValidTiles, Bindings, Shown, CellIndex;
    var (p, m) := (Run(calls).published, Run(calls).ideal);
    CurrentKeeps(Run(calls).cache, m, p);
    var c := Current(Run(calls).cache, p);
    SameGrid(c, m);
    SameGrid(Run(calls).cache, m);
    hide Current, ValidGrid;
    if InGrid(m.grid, x, y) {
      IndexInGrid(m.grid, |m.cells|, x, y);
      BindingIsShown(c, m, p, CellIndex(m.grid, x, y));
    }
  }

  /** The native renderer's pointer to a cell is resolved to that cell, with or without its coordinates. */
  lemma PointersFindCells(c: Cache, x: int, y: int)
    requires ValidGrid(c.grid, |c.cells|) && InGrid(c.grid, x, y)
    ensures var i := CellIndex(c.grid, x, y);
            && CellOfPointer(c, c.grid.address + STRIDE * i, x, y) == Some(i)
            && CellOfPointer(c, c.grid.address + STRIDE * i, -1, -1) == Some(i)
  {
    IndexInGrid(c.grid, |c.cells|, x, y);
    A.RemainderIsUnique(CellIndex(c.grid, x, y), y, x, c.grid.width);
    QuotientIsUnique(CellIndex(c.grid, x, y), y, x, c.grid.width);
    hide CellIndex, ValidGrid;
  }

  lemma QuotientIsUnique(n: nat, q: nat, r: nat, p: nat)
    requires n == q * p + r && r < p
    ensures n / p == q
  {
    if n / p < q { A.NextMultiple(n / p, q, p); }
    if q < n / p { A.NextMultiple(q, n / p, p); }
  }

  /** Every pointer that is accepted belongs to the cell whose coordinates it carries. */
  lemma AcceptedPointersAreCells(c: Cache, pointer: nat, x: int, y: int)
    requires ValidGrid(c.grid, |c.cells|) && CellOfPointer(c, pointer, x, y).Some?
    ensures var i := CellOfPointer(c, pointer, x, y).value;
            && pointer == c.grid.address + STRIDE * i
            && InGrid(c.grid, i % c.grid.width, i / c.grid.width)
            && i == CellIndex(c.grid, i % c.grid.width, i / c.grid.width)
            && (x >= 0 ==> x == i % c.grid.width) && (y >= 0 ==> y == i / c.grid.width)
  {
    var (i, width, height) := (CellOfPointer(c, pointer, x, y).value, c.grid.width, c.grid.height);
    assert i == (i / width) * width + i % width;
    assert (height - 1) * width + width == height * width;
    if i / width >= height { A.NextMultiple(height - 1, i / width, width); }
  }

  /** Rendering by pointer shows the same registry entry, at the animation frame of the tick. */
  lemma RendersShowTheRegistry(calls: seq<Call>, pointer: nat, mode: int, x: int, y: int, tick: nat)
    requires forall i :: 0 <= i < |calls| ==> Possible(calls[i])
    ensures var (p, m) := (Run(calls).published, Run(calls).ideal);
            var c := Current(Run(calls).cache, p);
            && ValidGrid(c.grid, |c.cells|) && |c.cells| == |m.cells|
            && (RenderAt(c, pointer, mode, x, y, tick).Some? <==>
                  && pointer != 0 && mode == RENDER_MODE && CellOfPointer(c, pointer, x, y).Some?
                  && Shown(m, p, CellOfPointer(c, pointer, x, y).value).Some?)
            && (RenderAt(c, pointer, mode, x, y, tick).Some? ==>
                  var i := CellOfPointer(c, pointer, x, y).value;
                  m.cells[i].Binding? &&
                  Draws(RenderAt(c, pointer, mode, x, y, tick).value, Shown(m, p, i).value, m.cells[i], i, tick))
  {
    hide Run, Represents, Follows, R.ValidTiles, Bindings, Shown, CellOfPointer;
    var (p, m) := (Run(calls).published, Run(calls).ideal);
    CurrentKeeps(Run(calls).cache, m, p);
    var c := Current(Run(calls).cache, p);
    SameGrid(c, m);
    SameGrid(Run(calls).cache, m);
    var at := CellOfPointer(c, pointer, x, y);
    if at.Some? {
      assert c.grid.Grid? by { PointerNeedsMap(c, pointer, x, y); }
      hide Current, ValidGrid;
      BindingIsShown(c, m, p, at.value);
      hide RenderOf, Draws;
      if Shown(m, p, at.value).Some? { RenderDraws(Shown(m, p, at.value).value, m.cells[at.value], at.value, tick); }
    }
  }

  lemma PointerNeedsMap(c: Cache, pointer: nat, x: int, y: int)
    requires ValidGrid(c.grid, |c.cells|) && CellOfPointer(c, pointer, x, y).Some?
    ensures c.grid.Grid?
  {
  }

  // ---------------------------------------------------- the cache as it runs

  class TileMap {
    const registry: R.Registry
    var grid: Grid
    var cells: array<Cell>
    var entries: seq<Entry>
    var generation: nat

    ghost function Abs(): Cache
      reads this, cells
    {
      Cache(grid, cells[..], entries, generation)
    }

    ghost function Registered(): Published
      reads registry
    {
      Published(registry.tiles, registry.generation)
    }

    ghost predicate Valid()
      reads this, cells, registry
    {
      ValidGrid(grid, cells.Length) && registry.Valid()
    }

    constructor (registry: R.Registry)
      requires registry.Valid()
      ensures Valid() && this.registry == registry && fresh(cells) && Abs() == Inactive()
    {
      this.registry := registry;
      grid, entries, generation := NoMap, [], 0;
      cells := new Cell[0];
    }

    /** Starts a map of empty cells; a refused size leaves the old map in place. */
    method MapBegin(address: nat, width: int, height: int) returns (ok: bool)
      requires Valid()
      modifies this
      ensures Valid() && ok == Begun(old(Abs()), address, width, height, Registered().generation).Some?
      ensures Abs() == if ok then Begun(old(Abs()), address, width, height, Registered().generation).value else old(Abs())
      ensures ok ==> fresh(cells)
      ensures !ok ==> cells == old(cells)
    {
      var count := CellCount(address, width, height);
      if count.None? { return false; }
      var empty := new Cell[count.value](_ => Empty);
      assert empty[..] == seq(count.value, _ => Empty);
      grid, cells, entries, generation := Grid(address, width, height), empty, [], registry.generation;
      ok := true;
    }

    method MapEnd()
      requires Valid()
      modifies this
      ensures Valid() && Abs() == Inactive() && fresh(cells)
    {
      grid, entries, generation := NoMap, [], 0;
      cells := new Cell[0];
    }

    method FindDefinition(key: string) returns (d: nat)
      ensures d == EntryOf(entries, key)
    {
      d := 0;
      while d < |entries| && entries[d].definition.key != key
        invariant d <= |entries| && forall i :: 0 <= i < d ==> entries[i].definition.key != key
      {
        d := d + 1;
      }
    }

    method MapSet(x: int, y: int, key: string, mirrored: bool) returns (ok: bool)
      requires Valid()
      modifies this`entries, cells
      ensures Valid() && ok == CellSet(old(Abs()), Registered(), x, y, key, mirrored).Some?
      ensures Abs() == if ok then CellSet(old(Abs()), Registered(), x, y, key, mirrored).value else old(Abs())
    {
      hide PhaseSeed, ValidGrid, EntryOf, R.Found, R.ValidTiles;
      if key == "" { return false; }
      var found := registry.TileFind(key);
      if found.None? || !InGrid(grid, x, y) { return false; }
      IndexInGrid(grid, cells.Length, x, y);
      var t := found.value;
      var d := FindDefinition(t.key);
      if d >= |entries| {
        if |entries| >= DEFINITIONS_MAX { return false; }
        d, entries := |entries|, entries + [Entry(t, t.body.native, true)];
      }
      cells[CellIndex(grid, x, y)] := Bound(d, mirrored, PhaseSeed(t.key, x, y));
      ok := true;
    }

    method MapClear(x: int, y: int) returns (ok: bool)
      requires Valid()
      modifies cells
      ensures Valid() && ok == CellCleared(old(Abs()), x, y).Some?
      ensures Abs() == if ok then CellCleared(old(Abs()), x, y).value else old(Abs())
    {
      if !InGrid(grid, x, y) { return false; }
      IndexInGrid(grid, cells.Length, x, y);
      cells[CellIndex(grid, x, y)] := Empty;
      ok := true;
    }

    /** Looks every entry up again, in a registry that may change between any two accesses, until a pass was left
        alone, and counts the valid entries of the last pass. */
    method RefreshAmid(h: nat -> Published, start: nat) returns (count: nat, ghost end: nat)
      requires Valid()
      modifies this`entries, this`generation
      ensures Valid() && (Abs(), end) == RefreshedAmid(old(Abs()), h, start, REFRESH_ATTEMPTS)
      ensures count == ValidCount(entries)
    {
      hide R.Found, R.ValidTiles, Pass, RefreshedAmid, ValidGrid;
      ghost var goal := RefreshedAmid(Abs(), h, start, REFRESH_ATTEMPTS);
      var t: nat := start;
      count := 0;
      for attempt := 0 to REFRESH_ATTEMPTS
        invariant Valid() && (attempt > 0 ==> count == ValidCount(entries))
        invariant RefreshedAmid(Abs(), h, t, REFRESH_ATTEMPTS - attempt) == goal
      {
        ghost var before, passEnd := Abs(), PassEnd(Abs(), t);
        AmidStep(before, h, t, REFRESH_ATTEMPTS - attempt);
        var seen := h(t).generation;
        count := LookUpAll(h, t + 1);
        ghost var passed := before.(entries := Pass(before.entries, h, t + 1));
        assert Abs() == passed && |entries| == |before.entries|;
        t := t + 1 + |entries|;
        assert t == passEnd;
        if h(t).generation == seen {
          generation, end := seen, t + 1;
          assert Abs() == passed.(generation := seen);
          return;
        }
        t := t + 1;
      }
      assert RefreshedAmid(Abs(), h, t, 0) == (Abs().(generation := 0), t) by { AmidEnd(Abs(), h, t); }
      generation, end := 0, t;
    }

    /** One pass over the entries, the first looked up at moment t. */
    method LookUpAll(h: nat -> Published, t: nat) returns (count: nat)
      modifies this`entries
      ensures entries == Pass(old(entries), h, t) && count == ValidCount(entries)
    {
      hide R.Found, Pass;
      count := 0;
      ghost var before := entries;
      assert entries[..0] == [];
      for i := 0 to |entries|
        invariant |entries| == |before| && count == ValidCount(entries[..i])
        invariant forall k :: 0 <= k < i ==> entries[k] == RefreshedEntry(before[k], h(t + k).tiles)
        invariant forall k :: i <= k < |before| ==> entries[k] == before[k]
      {
        ghost var done := entries[..i];
        var e := entries[i];
        var found := R.Found(h(t + i).tiles, e.definition.key);
        if found.Some? && found.value.body.native == e.native {
          entries := entries[i := Entry(found.value, e.native, true)];
          count := count + 1;
        } else {
          entries := entries[i := e.(valid := false)];
        }
        assert entries[..i + 1][..i] == done;
      }
      assert entries[..|entries|] == entries;
      PassIs(before, entries, h, t);
    }

    /** A refresh that no commit interrupts. */
    method Refresh() returns (count: nat)
      requires Valid()
      modifies this`entries, this`generation
      ensures Valid() && Abs() == Refreshed(old(Abs()), Registered()) && count == ValidCount(entries)
    {
      hide RefreshedAmid, Refreshed;
      var p := Published(registry.tiles, registry.generation);
      ghost var end;
      QuietRefresh(Abs(), _ => p, 0, REFRESH_ATTEMPTS);
      count, end := RefreshAmid(_ => p, 0);
    }

    /** What a cell does; a stale cache is refreshed first. */
    method InteractionAtCell(x: int, y: int) returns (r: Option<Interaction>)
      requires Valid()
      modifies this`entries, this`generation
      ensures Valid()
      ensures Abs() == if InGrid(grid, x, y) then Current(old(Abs()), Registered()) else old(Abs())
      ensures r == InteractionAt(Abs(), x, y)
    {
      hide Refreshed;
      if !InGrid(grid, x, y) { return None; }
      if generation != registry.generation { var _ := Refresh(); }
      IndexInGrid(grid, cells.Length, x, y);
      var index := CellIndex(grid, x, y);
      var cell := cells[index];
      if cell.Empty? || cell.definition >= |entries| || !entries[cell.definition].valid { return None; }
      r := Some(InteractionOf(entries[cell.definition].definition, cell.mirrored, index, x, y));
    }

    /** What the native renderer should draw for a pointer into its tilemap; a stale cache is refreshed first. */
    method RenderForAction(pointer: nat, mode: int, x: int, y: int, tick: nat) returns (r: Option<Render>)
      requires Valid()
      modifies this`entries, this`generation
      ensures Valid()
      ensures Abs() == if pointer != 0 && mode == RENDER_MODE then Current(old(Abs()), Registered()) else old(Abs())
      ensures r == RenderAt(Abs(), pointer, mode, x, y, tick)
    {
      hide Refreshed, RenderOf;
      if pointer == 0 || mode != RENDER_MODE || grid.NoMap? { return None; }
      if generation != registry.generation { var _ := Refresh(); }
      if pointer < grid.address || (pointer - grid.address) % STRIDE != 0 { return None; }
      var index := (pointer - grid.address) / STRIDE;
      if index >= cells.Length { return None; }
      if (x >= 0 && x != index % grid.width) || (y >= 0 && y != index / grid.width) { return None; }
      var cell := cells[index];
      if cell.Empty? || cell.definition >= |entries| || !entries[cell.definition].valid { return None; }
      r := Some(RenderOf(entries[cell.definition].definition, cell.mirrored, cell.seed, index, tick));
    }
  }
}
