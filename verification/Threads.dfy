/** The map threads of server/src/Environment.cpp: what each writes to the shared buffer, and when their order shows. */
module MapThreads {
  import opened Bytes
  import opened Options
  import opened Params
  import opened Flat
  import opened Grids
  import opened Screens
  import opened Maps
  import opened MapDrawing
  import opened Environments

  /** The size of every map and of the console. */
  datatype Sizes = Sizes(mapWidth: uint16, mapHeight: uint16, screenWidth: uint16, screenHeight: uint16)

  predicate HasCells(s: Sizes) {
    s.mapWidth > 0 && s.mapHeight > 0
  }

  function Strip(i: nat, s: Sizes): MapConfig {
    MapConfigOf(i, s.mapWidth, s.mapHeight, s.screenWidth, s.screenHeight)
  }

  /** What a map's thread works on: its index when it starts, and the entities at each of its updates. */
  datatype MapRun = MapRun(start: Grid, rounds: seq<seq<Entity>>)

  /** All entities the map ever sees lie inside it. */
  predicate RunInside(r: MapRun, s: Sizes) {
    && |r.start| == s.mapWidth * s.mapHeight
    && AllInside(r.start, s.mapWidth, s.mapHeight)
    && forall k, e :: 0 <= k < |r.rounds| && e in r.rounds[k] ==> InsideMap(e, s.mapWidth, s.mapHeight)
  }

  predicate RunsInside(runs: seq<MapRun>, s: Sizes) {
    forall i :: 0 <= i < |runs| ==> RunInside(runs[i], s)
  }

  function GridsOf(r: MapRun, s: Sizes): seq<Grid> {
    IndexHistory(r.start, r.rounds, s.mapWidth)
  }

  /** The writes of map i's thread: start_up, then one render after each update. */
  function Program(i: nat, r: MapRun, s: Sizes): seq<Glyph> {
    StartUpGlyphs(Strip(i, s)) + Renders(Strip(i, s), GridsOf(r, s))
  }

  function Programs(runs: seq<MapRun>, s: Sizes): (programs: seq<seq<Glyph>>)
    ensures |programs| == |runs|
    ensures forall i :: 0 <= i < |runs| ==> programs[i] == Program(i, runs[i], s)
  {
    seq(|runs|, i requires 0 <= i < |runs| => Program(i, runs[i], s))
  }

  /** An index that starts out inside and is given entities inside stays inside. */
  lemma GridsInside(r: MapRun, s: Sizes)
    requires RunInside(r, s)
    ensures forall k :: 0 <= k < |GridsOf(r, s)| ==> AllInside(GridsOf(r, s)[k], s.mapWidth, s.mapHeight)
  {
    hide IndexHistory;
    HistoryBrings(r.start, r.rounds, s.mapWidth);
    forall k | 0 <= k < |GridsOf(r, s)| ensures AllInside(GridsOf(r, s)[k], s.mapWidth, s.mapHeight) {
      var h := GridsOf(r, s)[k];
      forall c | 0 <= c < |h| && h[c].Some? ensures InsideMap(h[c].value, s.mapWidth, s.mapHeight) {
        assert Known(h[c].value, r.start, r.rounds);
      }
    }
  }

  /** A thread writes inside its own strip only. */
  lemma ThreadConfined(i: nat, r: MapRun, s: Sizes, px: int, py: int)
    requires s.mapWidth > 0 && s.mapHeight > 0 && RunInside(r, s) && !InMap(Strip(i, s), px, py)
    ensures Misses(Program(i, r, s), px, py)
  {
    hide StartUpGlyphs, Renders, RenderGlyphs, AllInside, RunInside, GridsOf, InMap, MapConfigOf;
    var c, grids := Strip(i, s), GridsOf(r, s);
    SameSize(i, s.mapWidth, s.mapHeight, s.screenWidth, s.screenHeight);
    GridsInside(r, s);
    StartUpConfined(c, px, py);
    forall k | 0 <= k < |grids| ensures Misses(RenderGlyphs(c, grids[k]), px, py) {
      RenderConfined(c, grids[k], px, py);
    }
    RendersMiss(c, grids, px, py);
    MissesConcat(StartUpGlyphs(c), Renders(c, grids), px, py);
  }

  /** With a console wide enough for all strips no position is written by two map threads. */
  lemma ThreadsSeparate(runs: seq<MapRun>, s: Sizes)
    requires RunsInside(runs, s) && s.mapWidth > 0 && s.mapHeight > 0 && |runs| * s.mapWidth <= s.screenWidth
    ensures Separate(Programs(runs, s))
  {
    hide MapConfigOf, Program, RunInside, Misses;
    var programs := Programs(runs, s);
    forall i, j, x: int, y: int | 0 <= i < |programs| && 0 <= j < |programs| && i != j
      ensures Misses(programs[i], x, y) || Misses(programs[j], x, y)
    {
      SameSize(i, s.mapWidth, s.mapHeight, s.screenWidth, s.screenHeight);
      SameSize(j, s.mapWidth, s.mapHeight, s.screenWidth, s.screenHeight);
      if i < j {
        StripsApart(i, j, |runs|, s.mapWidth, s.mapHeight, s.screenWidth, s.screenHeight);
      } else {
        StripsApart(j, i, |runs|, s.mapWidth, s.mapHeight, s.screenWidth, s.screenHeight);
      }
      if !InMap(Strip(i, s), x, y) {
        ThreadConfined(i, runs[i], s, x, y);
      } else {
        ThreadConfined(j, runs[j], s, x, y);
      }
    }
  }

  /** The map threads are confluent on a console wide enough for all strips: whatever the interleaving of their
      writes, at every moment the shared buffer is the one that running the maps one after another leaves. */
  lemma MapThreadsConfluent(cells: seq<byte>, width: nat, height: nat, runs: seq<MapRun>, s: Sizes, schedule: seq<nat>)
    requires |cells| == width * height
    requires RunsInside(runs, s) && s.mapWidth > 0 && s.mapHeight > 0 && |runs| * s.mapWidth <= s.screenWidth
    ensures Agrees(cells, width, height, Programs(runs, s), schedule)
  {
    hide Agrees, Harmless, Separate, RunsInside;
    ThreadsSeparate(runs, s);
    forall x, y | OnScreen(x, y, width, height) ensures Harmless(Programs(runs, s), x, y) {
      SeparateIsHarmless(Programs(runs, s), x, y);
    }
    Confluence(cells, width, height, Programs(runs, s), schedule);
  }

  // Where the strips lie, on consoles of any size.

  /** The strip's offset does not wrap around in 16 bits. */
  predicate OffsetFits(i: nat, s: Sizes) {
    i * s.mapWidth + s.mapWidth < 0x1_0000
  }

  /** The row in which every map starts: a console lower than the maps makes it wrap around. */
  function Top(s: Sizes): nat {
    if s.mapHeight <= s.screenHeight then 0 else s.screenHeight - s.mapHeight + 0x1_0000
  }

  /** The column in which the maps start that the console does not hold; it wraps around if it holds none. */
  function Edge(s: Sizes): nat {
    if s.mapWidth <= s.screenWidth then s.screenWidth - s.mapWidth else s.screenWidth - s.mapWidth + 0x1_0000
  }

  lemma StripShape(i: nat, s: Sizes)
    ensures var c := Strip(i, s);
            && c.y == Top(s) && c.width == s.mapWidth && c.height == s.mapHeight
            && c.wallOne == BOTTOM_WALL && c.wallTwo == TOP_WALL && c.wallFour == NO_WALLS
            && c.wallThree == if i % 2 > 0 then RIGHT_WALL else LEFT_WALL
  {
    hide Low16;
    Low16Small(s.screenHeight - s.mapHeight);
    Low16Negative(s.screenHeight - s.mapHeight);
  }

  lemma StripPlace(i: nat, s: Sizes)
    requires OffsetFits(i, s)
    ensures Strip(i, s).x == if i * s.mapWidth + s.mapWidth <= s.screenWidth then i * s.mapWidth else Edge(s)
  {
    hide Low16;
    Low16Small(i * s.mapWidth);
    Low16Small(s.screenWidth - s.mapWidth);
    Low16Negative(s.screenWidth - s.mapWidth);
  }

  /** The last strip starts at a column that lies in the strip before, too. */
  lemma LastTwoStrips(count: nat, s: Sizes)
    requires HasCells(s) && count >= 2 && s.screenWidth < count * s.mapWidth < 0x1_0000
    ensures var a, b := Strip(count - 2, s), Strip(count - 1, s);
            && a.x <= b.x == Edge(s) < a.x + s.mapWidth
            && (s.screenWidth <= (count - 1) * s.mapWidth <==> a.x == b.x)
    ensures (count - 2) * s.mapWidth + s.mapWidth == (count - 1) * s.mapWidth
    ensures OffsetFits(count - 2, s) && OffsetFits(count - 1, s)
    ensures s.mapWidth <= s.screenWidth ==> Edge(s) < count * s.mapWidth
  {
    hide MapConfigOf;
    var w := s.mapWidth;
    assert (count - 2) * w + w == (count - 1) * w;
    assert (count - 1) * w + w == count * w;
    StripPlace(count - 2, s);
    StripPlace(count - 1, s);
    MulLe(1, count - 1, w);
  }

  /** The wrapped offsets put all maps outside the environment's buffer, or there is no row at all. */
  predicate NothingVisible(s: Sizes, width: nat) {
    || s.mapHeight == 0
    || (s.screenHeight < s.mapHeight && s.mapHeight <= Top(s))
    || (s.screenWidth < s.mapWidth && width <= Edge(s))
  }

  /** There is one map, or the console holds all strips, or none of them is visible. */
  predicate Calm(count: nat, s: Sizes, width: nat) {
    count == 1 || count * s.mapWidth <= s.screenWidth || NothingVisible(s, width)
  }

  /** Maps without columns draw nothing but the left walls of every other one. */
  lemma ThinShows(i: nat, r: MapRun, s: Sizes, px: int, py: int)
    requires s.mapWidth == 0 && RunInside(r, s) && px >= 0
    ensures ShowsOnly(Program(i, r, s), px, py, BAR)
  {
    hide MapConfigOf, WallGlyphs, RenderGlyphs, IndexHistory;
    var c, grids := Strip(i, s), GridsOf(r, s);
    assert i * s.mapWidth == 0;
    StripPlace(i, s);
    StripShape(i, s);
    forall k | 0 <= k < |grids| ensures ShowsOnly(RenderGlyphs(c, grids[k]), px, py, BAR) {
      RenderShows(c, grids[k], px, py, BAR);
    }
    RendersShow(c, grids, px, py, BAR);
    ThinWalls(c, px, py);
    ShowsConcat(StartUpGlyphs(c), Renders(c, grids), px, py, BAR);
  }

  lemma ThinWalls(c: MapConfig, px: int, py: int)
    requires c.width == 0 && c.x == 0 && px >= 0
    ensures ShowsOnly(StartUpGlyphs(c), px, py, BAR)
  {
    hide WallGlyphs;
    ThinWall(c, c.wallOne, px, py);
    ThinWall(c, c.wallTwo, px, py);
    ThinWall(c, c.wallThree, px, py);
    ThinWall(c, c.wallFour, px, py);
    var one, two := WallGlyphs(c, c.wallOne), WallGlyphs(c, c.wallTwo);
    var three, four := WallGlyphs(c, c.wallThree), WallGlyphs(c, c.wallFour);
    ShowsConcat(one, two, px, py, BAR);
    ShowsConcat(one + two, three, px, py, BAR);
    ShowsConcat(one + two + three, four, px, py, BAR);
  }

  lemma ThinWall(c: MapConfig, wall: uint16, px: int, py: int)
    requires c.width == 0 && c.x == 0 && px >= 0
    ensures ShowsOnly(WallGlyphs(c, wall), px, py, BAR)
  {
    hide WallGlyphs;
    WallShows(c, wall, px, py);
    WallExact(c, wall, px, py, 0);
  }

  /** No map is drawn where the buffer shows it. */
  lemma OutOfSight(count: nat, i: nat, s: Sizes, width: nat, x: int, y: int)
    requires HasCells(s) && i < count && count * s.mapWidth <= width < 0x1_0000
    requires NothingVisible(s, width) && OnScreen(x, y, width, s.mapHeight)
    ensures !InMap(Strip(i, s), x, y)
  {
    hide MapConfigOf;
    MulMonotone(i, count, s.mapWidth);
    StripPlace(i, s);
    StripShape(i, s);
  }

  lemma CalmHarmless(runs: seq<MapRun>, s: Sizes, width: nat, x: int, y: int)
    requires RunsInside(runs, s) && |runs| > 0 && |runs| * s.mapWidth <= width < 0x1_0000
    requires Calm(|runs|, s, width) && OnScreen(x, y, width, s.mapHeight)
    ensures Harmless(Programs(runs, s), x, y)
  {
    hide MapConfigOf, Program, RunInside, Misses, InMap, Top, Edge;
    var programs := Programs(runs, s);
    if s.mapWidth == 0 {
      forall i | 0 <= i < |runs| ensures ShowsOnly(programs[i], x, y, BAR) {
        ThinShows(i, runs[i], s, x, y);
      }
      assert AllShow(programs, x, y, BAR);
    } else if |runs| == 1 {
      assert OnlyOwner(programs, 0, x, y);
    } else if NothingVisible(s, width) {
      forall i | 0 <= i < |runs| ensures Misses(programs[i], x, y) {
        OutOfSight(|runs|, i, s, width, x, y);
        ThreadConfined(i, runs[i], s, x, y);
      }
      AllMissIsHarmless(programs, x, y);
    } else {
      ThreadsSeparate(runs, s);
      SeparateIsHarmless(programs, x, y);
    }
  }

  // Arbitrary entities.

  /** No run of the maps' threads on the environment's buffer ever shows in which order they ran. */
  ghost predicate OrderNeverShows(count: nat, s: Sizes, width: nat) {
    forall cells, runs, schedule ::
      |cells| == width * s.mapHeight && |runs| == count && RunsInside(runs, s) ==>
        Agrees(cells, width, s.mapHeight, Programs(runs, s), schedule)
  }

  function NothingRun(s: Sizes): MapRun {
    MapRun(EmptyGrid(s.mapWidth * s.mapHeight), [])
  }

  /** A map on which nothing but one entity is ever seen. */
  function SoleRun(e: Entity, s: Sizes): MapRun {
    MapRun(EmptyGrid(s.mapWidth * s.mapHeight), [[e]])
  }

  lemma SoleInside(e: Entity, s: Sizes)
    requires InsideMap(e, s.mapWidth, s.mapHeight)
    ensures RunInside(SoleRun(e, s), s) && RunInside(NothingRun(s), s)
  {
  }

  predicate HoldsOnly(g: Grid, e: Entity) {
    && (forall c :: 0 <= c < |g| && g[c].Some? ==> g[c].value == e)
    && exists c :: 0 <= c < |g| && g[c] == Some(e)
  }

  lemma SoleInRange(e: Entity, s: Sizes)
    requires InsideMap(e, s.mapWidth, s.mapHeight) && e.veloX == 0 && e.veloY == 0
    ensures Apply(EmptyGrid(s.mapWidth * s.mapHeight), Stores([e], s.mapWidth)).Updated?
  {
    CellIsPosition(e, s.mapWidth, s.mapHeight, 0, 0);
    StandsStill(e, s.mapWidth);
    SoleStores(e, s.mapWidth, s.mapWidth * s.mapHeight);
    hide *;
    UpdatedIff(EmptyGrid(s.mapWidth * s.mapHeight), Stores([e], s.mapWidth));
  }

  lemma SoleStores(e: Entity, width: nat, size: nat)
    requires 0 <= NewCell(e, width) < size && OldCell(e, width) == NewCell(e, width)
    ensures InRange(Stores([e], width), size)
  {
    hide NewCell, OldCell, Stores;
    StoreAt([e], width, 0);
    StoreAt([e], width, 1);
  }

  lemma SoleUpdate(g: Grid, e: Entity, width: nat)
    requires Apply(g, Stores([e], width)).Updated? && forall c :: 0 <= c < |g| ==> g[c] == None
    ensures HoldsOnly(Apply(g, Stores([e], width)).grid, e)
  {
    hide NewCell, OldCell, Apply, Stores, Visited;
    NoGhostsIff(g, [e], width);
    FoundIfUndisturbed(g, [e], width, 0);
  }

  lemma SoleOccupant(e: Entity, s: Sizes)
    requires InsideMap(e, s.mapWidth, s.mapHeight) && e.veloX == 0 && e.veloY == 0
    ensures |GridsOf(SoleRun(e, s), s)| == 1 && HoldsOnly(GridsOf(SoleRun(e, s), s)[0], e)
  {
    hide Apply, Stores, HoldsOnly;
    SoleInRange(e, s);
    SoleUpdate(EmptyGrid(s.mapWidth * s.mapHeight), e, s.mapWidth);
    assert [[e]][..0] == [];
    assert IndexHistory(EmptyGrid(s.mapWidth * s.mapHeight), [], s.mapWidth) == [];
  }

  /** That entity is what one sees at its position. */
  lemma SoleOnTop(i: nat, e: Entity, s: Sizes)
    requires InsideMap(e, s.mapWidth, s.mapHeight) && e.veloX == 0 && e.veloY == 0
    ensures Leaves(Program(i, SoleRun(e, s), s), e.x + Strip(i, s).x, e.y + Strip(i, s).y, e.style)
  {
    hide StartUpGlyphs, RenderGlyphs, GridsOf, MapConfigOf, LastGlyph;
    var c, grids := Strip(i, s), GridsOf(SoleRun(e, s), s);
    var x, y := e.x + c.x, e.y + c.y;
    SoleOccupant(e, s);
    RenderHits(c, grids[0], x, y);
    RenderShows(c, grids[0], x, y, e.style);
    assert grids[..0] == [];
    assert Renders(c, []) == [] && [] + RenderGlyphs(c, grids[0]) == RenderGlyphs(c, grids[0]);
    var walls := StartUpGlyphs(c);
    forall before ensures LastGlyph(Program(i, SoleRun(e, s), s), x, y, before) == e.style {
      LastGlyphConcat(walls, Renders(c, grids), x, y, before);
      ShownPixel(RenderGlyphs(c, grids[0]), x, y, e.style, LastGlyph(walls, x, y, before));
    }
  }

  /** One entity each for the last two maps, which the console puts on the same position. */
  function CollidingRuns(count: nat, s: Sizes, a: Entity, b: Entity): (runs: seq<MapRun>)
    ensures |runs| == count
  {
    seq(count, i => if i == count - 2 then SoleRun(a, s) else if i == count - 1 then SoleRun(b, s) else NothingRun(s))
  }

  lemma EntitiesCollide(count: nat, s: Sizes, width: nat)
    requires HasCells(s) && count >= 2 && s.screenWidth < count * s.mapWidth <= width < 0x1_0000
    requires !NothingVisible(s, width)
    ensures !OrderNeverShows(count, s, width)
  {
    hide MapConfigOf, Program, RunInside, InMap, OrderNeverShows, Leaves, SoleRun, NothingRun;
    LastTwoStrips(count, s);
    StripShape(count - 2, s);
    StripShape(count - 1, s);
    var i, j := count - 2, count - 1;
    var a := Entity(0, Edge(s) - Strip(i, s).x, 0, 0, 0, 1, 0);
    var b := Entity(1, 0, 0, 0, 0, 2, 0);
    var runs := CollidingRuns(count, s, a, b);
    SoleInside(a, s);
    SoleInside(b, s);
    assert RunsInside(runs, s);
    SoleOnTop(i, a, s);
    SoleOnTop(j, b, s);
    LastTwoCollide(count, s, width, runs, Edge(s), Top(s));
  }

  lemma LastTwoCollide(count: nat, s: Sizes, width: nat, runs: seq<MapRun>, x: int, y: int)
    requires |runs| == count >= 2 && RunsInside(runs, s) && OnScreen(x, y, width, s.mapHeight)
    requires Leaves(Programs(runs, s)[count - 2], x, y, 1) && Leaves(Programs(runs, s)[count - 1], x, y, 2)
    ensures !OrderNeverShows(count, s, width)
  {
    hide *;
    var i, j, programs := count - 2, count - 1, Programs(runs, s);
    var m, n := |programs[i]|, |programs[j]|;
    assert programs[i][..m] == programs[i] && programs[j][..n] == programs[j];
    var cells := BlankCells(width, s.mapHeight);
    OrderShows(cells, width, s.mapHeight, programs, i, m, j, n, x, y, 1, 2);
    OneRunShows(count, s, width, cells, runs, Block(j, n) + Block(i, m));
  }

  function BlankCells(width: nat, height: nat): (cells: seq<byte>)
    ensures |cells| == width * height
  {
    seq(width * height, _ => BLANK)
  }

  lemma OneRunShows(count: nat, s: Sizes, width: nat, cells: seq<byte>, runs: seq<MapRun>, schedule: seq<nat>)
    requires |cells| == width * s.mapHeight && |runs| == count && RunsInside(runs, s)
    requires !Agrees(cells, width, s.mapHeight, Programs(runs, s), schedule)
    ensures !OrderNeverShows(count, s, width)
  {
    hide RunsInside, Agrees, Programs;
  }

  /** For entities of any kind the order of the map threads never shows exactly when there is one map, or the console
      holds all strips, or none is visible at all. */
  lemma MapThreadsConfluentIff(count: nat, s: Sizes, width: nat)
    requires count > 0 && count * s.mapWidth <= width < 0x1_0000
    ensures OrderNeverShows(count, s, width) <==> Calm(count, s, width)
  {
    hide RunsInside, Agrees, Programs, Harmless, NothingVisible;
    if Calm(count, s, width) {
      forall cells, runs, schedule | |cells| == width * s.mapHeight && |runs| == count && RunsInside(runs, s)
        ensures Agrees(cells, width, s.mapHeight, Programs(runs, s), schedule)
      {
        CalmAgrees(cells, width, runs, s, schedule);
      }
    } else {
      NotCalm(count, s, width);
      EntitiesCollide(count, s, width);
    }
  }

  lemma NotCalm(count: nat, s: Sizes, width: nat)
    requires count > 0 && !Calm(count, s, width)
    ensures HasCells(s) && count >= 2 && s.screenWidth < count * s.mapWidth && !NothingVisible(s, width)
  {
    assert s.mapWidth == 0 ==> count * s.mapWidth == 0;
  }

  lemma CalmAgrees(cells: seq<byte>, width: nat, runs: seq<MapRun>, s: Sizes, schedule: seq<nat>)
    requires |cells| == width * s.mapHeight && RunsInside(runs, s) && |runs| > 0
    requires |runs| * s.mapWidth <= width < 0x1_0000 && Calm(|runs|, s, width)
    ensures Agrees(cells, width, s.mapHeight, Programs(runs, s), schedule)
  {
    hide RunsInside, Agrees, Programs, Harmless, Calm;
    forall x, y | OnScreen(x, y, width, s.mapHeight) ensures Harmless(Programs(runs, s), x, y) {
      CalmHarmless(runs, s, width, x, y);
    }
    Confluence(cells, width, s.mapHeight, Programs(runs, s), schedule);
  }

  // The walls and the food that the environment really draws.

  /** The food of one map, and how often its thread has updated the map. */
  datatype FoodRun = FoodRun(id: uint64, draws: seq<Draw>, rounds: nat)

  predicate ValidFood(f: FoodRun, s: Sizes) {
    AllDrawn(f.draws, s.mapWidth, s.mapHeight)
  }

  predicate AllValidFood(foods: seq<FoodRun>, s: Sizes) {
    forall i :: 0 <= i < |foods| ==> ValidFood(foods[i], s)
  }

  /** m_create_entities puts the food on the empty map; then the thread updates the map with the same food. */
  function RunOfFood(f: FoodRun, s: Sizes): MapRun {
    MapRun(Apply(EmptyGrid(s.mapWidth * s.mapHeight), Stores(Foods(f.id, f.draws), s.mapWidth)).grid,
           FoodRounds(f.id, f.draws, f.rounds))
  }

  function RunsOfFood(foods: seq<FoodRun>, s: Sizes): (runs: seq<MapRun>)
    ensures |runs| == |foods|
    ensures forall i :: 0 <= i < |foods| ==> runs[i] == RunOfFood(foods[i], s)
  {
    seq(|foods|, i requires 0 <= i < |foods| => RunOfFood(foods[i], s))
  }

  /** No update with food throws, and after each the index holds food only, strictly inside the border. */
  lemma FoodGrids(f: FoodRun, s: Sizes)
    requires ValidFood(f, s)
    ensures RunInside(RunOfFood(f, s), s) && AllInterior(RunOfFood(f, s).start, s.mapWidth, s.mapHeight)
    ensures var grids := GridsOf(RunOfFood(f, s), s);
            && |grids| == f.rounds
            && forall k :: 0 <= k < |grids| ==>
                 OnlyFood(grids[k], s.mapWidth, s.mapHeight) && AllInterior(grids[k], s.mapWidth, s.mapHeight)
  {
    hide Apply, Stores, Foods, IndexHistory, OnlyFood, AllInterior, AllDrawn, AllInside, NoGhosts;
    var w: uint16, h: uint16, size: nat := s.mapWidth, s.mapHeight, s.mapWidth * s.mapHeight;
    EmptyFoodIndex(f.id, f.draws, w, h);
    FoodIndexed(EmptyGrid(size), f.id, f.draws, w, h);
    FoodStaysIndexed(RunOfFood(f, s).start, f.id, f.draws, w, h, f.rounds);
    FoodIndexInside(RunOfFood(f, s).start, f.id, f.draws, w, h);
    FoodsInterior(f.id, f.draws, w, h);
  }

  /** Food and walls never collide: whatever the food and however often a map's thread has rendered it, each position
      with a wall shows the last of the walls that cover it. */
  lemma FoodWallsSurvive(i: nat, f: FoodRun, s: Sizes, px: int, py: int, before: byte)
    requires ValidFood(f, s)
    requires var c := Strip(i, s); !NoWallAt(c, px - c.x, py - c.y)
    ensures var c := Strip(i, s);
            LastGlyph(Program(i, RunOfFood(f, s), s), px, py, before)
            == LastWall(c, WallsOf(c), px - c.x, py - c.y, before)
  {
    hide MapConfigOf, GridsOf, RunOfFood, StartUpGlyphs, Renders, LastGlyph, LastWall, NoWallAt, OnlyFood, AllInterior;
    FoodGrids(f, s);
    SameSize(i, s.mapWidth, s.mapHeight, s.screenWidth, s.screenHeight);
    WallsSurvive(Strip(i, s), GridsOf(RunOfFood(f, s), s), px, py, before);
  }

  /** So it does not matter that the environment renders the food before the threads draw the walls. */
  lemma FoodAndWallsCommute(cells: seq<byte>, width: nat, height: nat, i: nat, f: FoodRun, s: Sizes)
    requires |cells| == width * height && ValidFood(f, s)
    ensures var c := Strip(i, s);
            var renders := Renders(c, [RunOfFood(f, s).start] + GridsOf(RunOfFood(f, s), s));
            Paint(cells, width, height, StartUpGlyphs(c) + renders)
            == Paint(cells, width, height, renders + StartUpGlyphs(c))
  {
    hide MapConfigOf, GridsOf, RunOfFood, StartUpGlyphs, Renders, Paint, OnlyFood, AllInterior;
    FoodGrids(f, s);
    StripSize(i, s);
    WallsAndRendersCommute(cells, width, height, Strip(i, s), [RunOfFood(f, s).start] + GridsOf(RunOfFood(f, s), s));
  }

  /** The character everything but the side walls has in this row of the buffer. */
  function RowChar(py: int, s: Sizes): byte {
    if py == Top(s) || py == Top(s) + s.mapHeight - 1 then DASH else FOOD_STYLE
  }

  /** The column of map i's side wall. */
  function SideColumn(i: nat, s: Sizes): int {
    Strip(i, s).x + if i % 2 > 0 then s.mapWidth - 1 else 0
  }

  /** Apart from its side wall a map's thread draws dashes in the first and last row and food in all others. */
  lemma RowsShow(i: nat, f: FoodRun, s: Sizes, px: int, py: int)
    requires HasCells(s) && ValidFood(f, s) && px != SideColumn(i, s)
    ensures ShowsOnly(Program(i, RunOfFood(f, s), s), px, py, RowChar(py, s))
  {
    hide MapConfigOf, GridsOf, RunOfFood, RenderGlyphs, Renders, WallGlyphs, Misses, ShowsOnly, AllInterior;
    var c := Strip(i, s);
    StripShape(i, s);
    WallsShow(i, s, px, py);
    RendersFood(i, f, s, px, py);
    ShowsConcat(StartUpGlyphs(c), Renders(c, GridsOf(RunOfFood(f, s), s)), px, py, RowChar(py, s));
  }

  lemma WallsShow(i: nat, s: Sizes, px: int, py: int)
    requires HasCells(s) && px != SideColumn(i, s)
    ensures ShowsOnly(StartUpGlyphs(Strip(i, s)), px, py, RowChar(py, s))
  {
    hide MapConfigOf, WallGlyphs, ShowsOnly;
    var c, ch := Strip(i, s), RowChar(py, s);
    StripShape(i, s);
    WallShowsRow(c, c.wallOne, s, px, py);
    WallShowsRow(c, c.wallTwo, s, px, py);
    WallShowsRow(c, c.wallThree, s, px, py);
    WallShowsRow(c, c.wallFour, s, px, py);
    var one, two := WallGlyphs(c, c.wallOne), WallGlyphs(c, c.wallTwo);
    var three, four := WallGlyphs(c, c.wallThree), WallGlyphs(c, c.wallFour);
    ShowsConcat(one, two, px, py, ch);
    ShowsConcat(one + two, three, px, py, ch);
    ShowsConcat(one + two + three, four, px, py, ch);
  }

  lemma WallShowsRow(c: MapConfig, wall: uint16, s: Sizes, px: int, py: int)
    requires c.y == Top(s) && c.width == s.mapWidth > 0 && c.height == s.mapHeight > 0
    requires wall == RIGHT_WALL ==> px != c.x + c.width - 1
    requires wall == LEFT_WALL ==> px != c.x
    ensures ShowsOnly(WallGlyphs(c, wall), px, py, RowChar(py, s))
  {
    hide WallGlyphs;
    WallShows(c, wall, px, py);
    WallExact(c, wall, px, py, 0);
    if Misses(WallGlyphs(c, wall), px, py) {
      assert ShowsOnly(WallGlyphs(c, wall), px, py, RowChar(py, s));
    }
  }

  lemma RendersFood(i: nat, f: FoodRun, s: Sizes, px: int, py: int)
    requires HasCells(s) && ValidFood(f, s)
    ensures ShowsOnly(Renders(Strip(i, s), GridsOf(RunOfFood(f, s), s)), px, py, RowChar(py, s))
  {
    hide MapConfigOf, GridsOf, RunOfFood, RenderGlyphs, Renders, AllInterior;
    var c, grids := Strip(i, s), GridsOf(RunOfFood(f, s), s);
    StripShape(i, s);
    FoodGrids(f, s);
    forall k | 0 <= k < |grids| ensures ShowsOnly(RenderGlyphs(c, grids[k]), px, py, RowChar(py, s)) {
      RenderShows(c, grids[k], px, py, RowChar(py, s));
    }
    RendersShow(c, grids, px, py, RowChar(py, s));
  }

  // An even number of maps of which only the last is moved: the last two overlap, but neither has its side wall there.

  predicate OnlyLastMoved(count: nat, s: Sizes) {
    count % 2 == 0 && (count - 1) * s.mapWidth < s.screenWidth
  }

  lemma OtherStripsApart(count: nat, s: Sizes, i: nat, j: nat)
    requires HasCells(s) && count >= 2 && OnlyLastMoved(count, s) && count * s.mapWidth < 0x1_0000
    requires i < j < count && i < count - 2
    ensures Strip(i, s).x + s.mapWidth <= Strip(j, s).x
  {
    hide MapConfigOf;
    var w := s.mapWidth;
    MulMonotone(i, j, w);
    MulMonotone(j, count, w);
    MulMonotone(i, count - 2, w);
    assert (count - 2) * w + w == (count - 1) * w;
    StripPlace(i, s);
    StripPlace(j, s);
  }

  lemma LastTwoHarmless(foods: seq<FoodRun>, s: Sizes, x: int, y: int)
    requires HasCells(s) && |foods| >= 2 && OnlyLastMoved(|foods|, s) && |foods| * s.mapWidth < 0x1_0000
    requires s.screenWidth < |foods| * s.mapWidth && AllValidFood(foods, s)
    requires InMap(Strip(|foods| - 2, s), x, y) && InMap(Strip(|foods| - 1, s), x, y)
    ensures AllShow(Programs(RunsOfFood(foods, s), s), x, y, RowChar(y, s))
  {
    hide MapConfigOf, Program, RunOfFood, ShowsOnly, ValidFood;
    var count, w := |foods|, s.mapWidth;
    forall i | 0 <= i < count
      ensures ShowsOnly(Program(i, RunOfFood(foods[i], s), s), x, y, RowChar(y, s))
    {
      MulMonotone(i, count, w);
      AwayFromSide(count, s, i, x, y);
      RowsShow(i, foods[i], s, x, y);
    }
  }

  lemma MovedPlaces(count: nat, s: Sizes)
    requires HasCells(s) && count >= 2 && OnlyLastMoved(count, s) && s.screenWidth < count * s.mapWidth < 0x1_0000
    ensures var a, b := Strip(count - 2, s), Strip(count - 1, s);
            a.x < b.x == s.screenWidth - s.mapWidth && a.x + s.mapWidth < s.screenWidth
  {
    hide MapConfigOf;
    LastTwoStrips(count, s);
    StripPlace(count - 2, s);
    MulLe(1, count - 1, s.mapWidth);
  }

  /** Where the last two strips overlap, no map has its side wall. */
  lemma AwayFromSide(count: nat, s: Sizes, i: nat, x: int, y: int)
    requires HasCells(s) && count >= 2 && OnlyLastMoved(count, s) && i < count
    requires s.screenWidth < count * s.mapWidth < 0x1_0000
    requires InMap(Strip(count - 2, s), x, y) && InMap(Strip(count - 1, s), x, y)
    ensures x != SideColumn(i, s)
  {
    MovedPlaces(count, s);
    hide MapConfigOf, Strip;
    SameSize(count - 2, s.mapWidth, s.mapHeight, s.screenWidth, s.screenHeight);
    SameSize(count - 1, s.mapWidth, s.mapHeight, s.screenWidth, s.screenHeight);
    if i < count - 2 {
      SideInStrip(i, s);
      OtherStripsApart(count, s, i, count - 2);
    }
    NoSideThere(count, s, x, y);
  }

  lemma NoSideThere(count: nat, s: Sizes, x: int, y: int)
    requires count >= 2 && count % 2 == 0
    requires Strip(count - 2, s).x < Strip(count - 1, s).x == s.screenWidth - s.mapWidth
    requires Strip(count - 2, s).x + s.mapWidth < s.screenWidth
    requires InMap(Strip(count - 2, s), x, y) && InMap(Strip(count - 1, s), x, y)
    ensures x != SideColumn(count - 2, s) && x != SideColumn(count - 1, s)
    ensures Strip(count - 2, s).x <= x
  {
    hide MapConfigOf, Strip, SideColumn;
    StripSize(count - 2, s);
    SideAt(count - 2, s);
    SideAt(count - 1, s);
  }

  lemma StripSize(i: nat, s: Sizes)
    ensures Strip(i, s).width == s.mapWidth && Strip(i, s).height == s.mapHeight
  {
    hide MapConfigOf;
    SameSize(i, s.mapWidth, s.mapHeight, s.screenWidth, s.screenHeight);
  }

  lemma SideAt(i: nat, s: Sizes)
    ensures i % 2 == 0 ==> SideColumn(i, s) == Strip(i, s).x
    ensures i % 2 == 1 ==> SideColumn(i, s) == Strip(i, s).x + s.mapWidth - 1
  {
    hide MapConfigOf;
  }

  lemma SideInStrip(i: nat, s: Sizes)
    requires s.mapWidth > 0
    ensures Strip(i, s).x <= SideColumn(i, s) < Strip(i, s).x + s.mapWidth
  {
    hide MapConfigOf;
  }

  lemma FoodHarmless(foods: seq<FoodRun>, s: Sizes, x: int, y: int)
    requires HasCells(s) && |foods| >= 2 && OnlyLastMoved(|foods|, s) && |foods| * s.mapWidth < 0x1_0000
    requires s.screenWidth < |foods| * s.mapWidth && AllValidFood(foods, s)
    ensures Harmless(Programs(RunsOfFood(foods, s), s), x, y)
  {
    hide MapConfigOf, Program, RunOfFood, Misses, ValidFood, AllShow;
    var programs, count := Programs(RunsOfFood(foods, s), s), |foods|;
    if InMap(Strip(count - 2, s), x, y) && InMap(Strip(count - 1, s), x, y) {
      LastTwoHarmless(foods, s, x, y);
    } else if i :| 0 <= i < count && InMap(Strip(i, s), x, y) {
      forall j | 0 <= j < count && j != i ensures Misses(programs[j], x, y) {
        NotInBoth(count, s, i, j, x, y);
        FoodGrids(foods[j], s);
        ThreadConfined(j, RunOfFood(foods[j], s), s, x, y);
      }
      assert OnlyOwner(programs, i, x, y);
    } else {
      forall j | 0 <= j < count ensures Misses(programs[j], x, y) {
        FoodGrids(foods[j], s);
        ThreadConfined(j, RunOfFood(foods[j], s), s, x, y);
      }
      AllMissIsHarmless(programs, x, y);
    }
  }

  lemma NotInBoth(count: nat, s: Sizes, i: nat, j: nat, x: int, y: int)
    requires HasCells(s) && count >= 2 && OnlyLastMoved(count, s) && count * s.mapWidth < 0x1_0000
    requires i < count && j < count && i != j && InMap(Strip(i, s), x, y)
    requires !(InMap(Strip(count - 2, s), x, y) && InMap(Strip(count - 1, s), x, y))
    ensures !InMap(Strip(j, s), x, y)
  {
    hide MapConfigOf;
    SameSize(i, s.mapWidth, s.mapHeight, s.screenWidth, s.screenHeight);
    SameSize(j, s.mapWidth, s.mapHeight, s.screenWidth, s.screenHeight);
    if i < j && i < count - 2 {
      OtherStripsApart(count, s, i, j);
    } else if j < i && j < count - 2 {
      OtherStripsApart(count, s, j, i);
    }
  }

  // Otherwise the side wall of one map crosses the top wall of another.

  /** How many writes the first two walls take: the bottom and the top one. */
  function HalfWay(i: nat, s: Sizes): nat {
    |WallGlyphs(Strip(i, s), BOTTOM_WALL) + WallGlyphs(Strip(i, s), TOP_WALL)|
  }

  lemma HalfDrawn(i: nat, r: MapRun, s: Sizes, x: int)
    requires HasCells(s)
    requires Strip(i, s).x <= x < Strip(i, s).x + s.mapWidth
    ensures HalfWay(i, s) <= |Program(i, r, s)|
    ensures Leaves(Program(i, r, s)[..HalfWay(i, s)], x, Top(s), DASH)
  {
    hide MapConfigOf, WallGlyphs, LastGlyph, GridsOf, Renders;
    var c := Strip(i, s);
    StripShape(i, s);
    var one, two := WallGlyphs(c, BOTTOM_WALL), WallGlyphs(c, TOP_WALL);
    assert Program(i, r, s)[..HalfWay(i, s)] == one + two;
    forall before ensures LastGlyph(one + two, x, Top(s), before) == DASH {
      LastGlyphConcat(one, two, x, Top(s), before);
      WallExact(c, TOP_WALL, x, Top(s), LastGlyph(one, x, Top(s), before));
    }
  }

  /** How many writes all walls take. */
  function AllTheWay(i: nat, s: Sizes): nat {
    |StartUpGlyphs(Strip(i, s))|
  }

  lemma FullyDrawn(i: nat, r: MapRun, s: Sizes)
    requires HasCells(s) && i % 2 == 0
    ensures AllTheWay(i, s) <= |Program(i, r, s)|
    ensures Leaves(Program(i, r, s)[..AllTheWay(i, s)], Strip(i, s).x, Top(s), BAR)
  {
    hide MapConfigOf, StartUpGlyphs, LastGlyph, GridsOf, Renders;
    var c := Strip(i, s);
    StripShape(i, s);
    assert Program(i, r, s)[..AllTheWay(i, s)] == StartUpGlyphs(c);
    forall before ensures LastGlyph(StartUpGlyphs(c), c.x, Top(s), before) == BAR {
      StartUpExact(c, c.x, Top(s), before);
      var three := [c.wallOne, c.wallTwo, c.wallThree];
      LastWallSnoc(c, three, c.wallFour, 0, 0, before);
      LastWallSnoc(c, [c.wallOne, c.wallTwo], c.wallThree, 0, 0, before);
      assert three + [c.wallFour] == WallsOf(c) && [c.wallOne, c.wallTwo] + [c.wallThree] == three;
    }
  }

  /** The last strip starts inside the one before, visibly, and with an even number of maps where that one starts. */
  predicate Meeting(count: nat, s: Sizes, width: nat) {
    && count >= 2
    && Strip(count - 2, s).x <= Strip(count - 1, s).x < Strip(count - 2, s).x + s.mapWidth
    && (count % 2 == 0 ==> Strip(count - 2, s).x == Strip(count - 1, s).x)
    && OnScreen(Strip(count - 1, s).x, Top(s), width, s.mapHeight)
  }

  lemma WallsMeet(count: nat, s: Sizes, width: nat)
    requires HasCells(s) && count >= 2 && s.screenWidth < count * s.mapWidth <= width < 0x1_0000
    requires !OnlyLastMoved(count, s) && !NothingVisible(s, width)
    ensures Meeting(count, s, width)
  {
    hide MapConfigOf;
    LastTwoStrips(count, s);
  }

  /** When of the last two maps one has drawn its bottom and top walls and the other all walls, they differ at the
      corner of the last one. */
  lemma LastTwoDiffer(count: nat, r: MapRun, t: MapRun, s: Sizes, width: nat)
    requires HasCells(s) && Meeting(count, s, width)
    ensures Differ(Program(count - 2, r, s), Program(count - 1, t, s), Strip(count - 1, s).x, Top(s))
  {
    hide MapConfigOf, Strip, Program, Leaves, HalfWay, AllTheWay, Top, HasCells, OnScreen;
    var i, j := count - 2, count - 1;
    assert BAR != DASH;
    if i % 2 == 0 {
      FullyDrawn(i, r, s);
      HalfDrawn(j, t, s, Strip(j, s).x);
    } else {
      HalfDrawn(i, r, s, Strip(j, s).x);
      FullyDrawn(j, t, s);
    }
  }

  /** Whatever the food, there is a schedule by which the side wall of one of the last two maps and the top wall of the
      other are drawn in the wrong order. */
  lemma MeetingShows(cells: seq<byte>, width: nat, runs: seq<MapRun>, s: Sizes) returns (schedule: seq<nat>)
    requires |cells| == width * s.mapHeight && HasCells(s) && Meeting(|runs|, s, width)
    ensures !Agrees(cells, width, s.mapHeight, Programs(runs, s), schedule)
  {
    hide MapConfigOf, Strip, Program, Top, Differ, HasCells, OnScreen, Agrees;
    var i, j := |runs| - 2, |runs| - 1;
    LastTwoDiffer(|runs|, runs[i], runs[j], s, width);
    schedule := DifferenceShows(cells, width, s.mapHeight, Programs(runs, s), i, j, Strip(j, s).x, Top(s));
  }

  lemma FoodConfluent(cells: seq<byte>, width: nat, foods: seq<FoodRun>, s: Sizes, schedule: seq<nat>)
    requires |cells| == width * s.mapHeight && AllValidFood(foods, s) && |foods| > 0
    requires |foods| * s.mapWidth <= width < 0x1_0000
    requires Calm(|foods|, s, width) || OnlyLastMoved(|foods|, s)
    ensures Agrees(cells, width, s.mapHeight, Programs(RunsOfFood(foods, s), s), schedule)
  {
    hide Agrees, Harmless, RunInside, RunOfFood, Program, ValidFood, NothingVisible;
    var runs := RunsOfFood(foods, s);
    if Calm(|foods|, s, width) {
      forall i | 0 <= i < |foods| ensures RunInside(runs[i], s) {
        FoodGrids(foods[i], s);
      }
      CalmAgrees(cells, width, runs, s, schedule);
    } else {
      NotCalm(|foods|, s, width);
      forall x, y | OnScreen(x, y, width, s.mapHeight) ensures Harmless(Programs(runs, s), x, y) {
        FoodHarmless(foods, s, x, y);
      }
      Confluence(cells, width, s.mapHeight, Programs(runs, s), schedule);
    }
  }

  /** With the walls and food that the environment really draws, whatever that food: the order of the map threads never
      shows exactly when it would not for any entities either, or there is an even number of maps and the console holds
      all of them but part of the last. */
  lemma FoodThreadsConfluentIff(cells: seq<byte>, width: nat, foods: seq<FoodRun>, s: Sizes)
    requires |cells| == width * s.mapHeight && AllValidFood(foods, s) && |foods| > 0
    requires |foods| * s.mapWidth <= width < 0x1_0000
    ensures (forall schedule :: Agrees(cells, width, s.mapHeight, Programs(RunsOfFood(foods, s), s), schedule))
       <==> Calm(|foods|, s, width) || (|foods| % 2 == 0 && (|foods| - 1) * s.mapWidth < s.screenWidth)
  {
    hide AllValidFood, Agrees, Programs, RunsOfFood, Calm, NothingVisible, Meeting;
    if Calm(|foods|, s, width) || OnlyLastMoved(|foods|, s) {
      forall schedule ensures Agrees(cells, width, s.mapHeight, Programs(RunsOfFood(foods, s), s), schedule) {
        FoodConfluent(cells, width, foods, s, schedule);
      }
    } else {
      NotCalm(|foods|, s, width);
      WallsMeet(|foods|, s, width);
      var schedule := MeetingShows(cells, width, RunsOfFood(foods, s), s);
    }
  }

  /** Two maps on a console for one: started one after the other, they leave a different picture in either order. */
  lemma NarrowConsoleRaces()
    ensures var s := Sizes(3, 3, 3, 3);
            var a, b := StartUpGlyphs(Strip(0, s)), StartUpGlyphs(Strip(1, s));
            Paint(BlankCells(6, 3), 6, 3, a + b) != Paint(BlankCells(6, 3), 6, 3, b + a)
  {
    hide Paint, Pixel, LastGlyph, StartUpGlyphs;
    var s, cells := Sizes(3, 3, 3, 3), BlankCells(6, 3);
    var a, b := StartUpGlyphs(Strip(0, s)), StartUpGlyphs(Strip(1, s));
    var before := Pixel(cells, 6, 3, 0, 0);
    PaintPixel(cells, 6, 3, a + b, 0, 0);
    PaintPixel(cells, 6, 3, b + a, 0, 0);
    LastGlyphConcat(a, b, 0, 0, before);
    LastGlyphConcat(b, a, 0, 0, before);
    CornerWalls(LastGlyph(a, 0, 0, before));
    CornerWalls(LastGlyph(b, 0, 0, before));
    StartUpExact(Strip(0, s), 0, 0, LastGlyph(b, 0, 0, before));
    StartUpExact(Strip(1, s), 0, 0, LastGlyph(a, 0, 0, before));
  }

  lemma CornerWalls(before: byte)
    ensures var s := Sizes(3, 3, 3, 3);
            && LastWall(Strip(0, s), WallsOf(Strip(0, s)), 0, 0, before) == BAR
            && LastWall(Strip(1, s), WallsOf(Strip(1, s)), 0, 0, before) == DASH
  {
    var s := Sizes(3, 3, 3, 3);
    var c, d := Strip(0, s), Strip(1, s);
    LastWallSnoc(c, [BOTTOM_WALL, TOP_WALL, LEFT_WALL], NO_WALLS, 0, 0, before);
    LastWallSnoc(c, [BOTTOM_WALL, TOP_WALL], LEFT_WALL, 0, 0, before);
    LastWallSnoc(d, [BOTTOM_WALL, TOP_WALL, RIGHT_WALL], NO_WALLS, 0, 0, before);
    LastWallSnoc(d, [BOTTOM_WALL, TOP_WALL], RIGHT_WALL, 0, 0, before);
    LastWallSnoc(d, [BOTTOM_WALL], TOP_WALL, 0, 0, before);
    assert WallsOf(c) == [BOTTOM_WALL, TOP_WALL, LEFT_WALL] + [NO_WALLS];
    assert WallsOf(d) == [BOTTOM_WALL, TOP_WALL, RIGHT_WALL] + [NO_WALLS];
    assert [BOTTOM_WALL, TOP_WALL, LEFT_WALL] == [BOTTOM_WALL, TOP_WALL] + [LEFT_WALL];
    assert [BOTTOM_WALL, TOP_WALL, RIGHT_WALL] == [BOTTOM_WALL, TOP_WALL] + [RIGHT_WALL];
    assert [BOTTOM_WALL, TOP_WALL] == [BOTTOM_WALL] + [TOP_WALL];
  }
}
