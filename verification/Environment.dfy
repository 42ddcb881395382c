/** The server's environment, server/src/Environment.cpp: one screen buffer cut into vertical strips, one map and
    one thread to a strip, and food scattered over every map. */
module Environments {
  import opened Options
  import opened Params
  import opened Flat
  import opened Grids
  import opened Screens
  import opened Maps
  import opened MapDrawing

  const MAX_FOOD_PER_MAP: nat := 500

  /** The configuration m_instanciate_maps gives map i, before the map clamps it to the console. */
  function StripConfig(i: nat, mapWidth: uint16, mapHeight: uint16): MapConfig {
    MapConfig(Low16(i * mapWidth), 0, mapWidth, mapHeight, BOTTOM_WALL, TOP_WALL,
              if i % 2 > 0 then RIGHT_WALL else LEFT_WALL, NO_WALLS)
  }

  /** The configuration map i ends up with. */
  function MapConfigOf(i: nat, mapWidth: uint16, mapHeight: uint16,
                       screenWidth: uint16, screenHeight: uint16): MapConfig {
    Clamped(StripConfig(i, mapWidth, mapHeight), screenWidth, screenHeight)
  }

  /** Two maps share no column. */
  predicate Apart(a: MapConfig, b: MapConfig) {
    a.x + a.width <= b.x || b.x + b.width <= a.x
  }

  /** Dividing any width by any number of maps: the strips lie inside the buffer one behind the other, their offsets
      survive the 16-bit field, and fewer columns are left over than there are maps. */
  lemma StripPartition(width: uint16, height: uint16, count: nat)
    requires count > 0
    ensures count * (width / count) <= width < count * (width / count) + count
    ensures forall i :: 0 <= i < count ==>
              var c := StripConfig(i, width / count, height);
              c.x == i * (width / count) && c.x + c.width <= width
    ensures forall i, j :: 0 <= i < j < count ==>
              Apart(StripConfig(i, width / count, height), StripConfig(j, width / count, height))
  {
    hide Low16;
    var mapWidth := width / count;
    assert width == count * mapWidth + width % count;
    forall i | 0 <= i < count
      ensures var c := StripConfig(i, mapWidth, height); c.x == i * mapWidth && c.x + c.width <= width
    {
      MulMonotone(i, count, mapWidth);
      Low16Small(i * mapWidth);
    }
    forall i, j | 0 <= i < j < count ensures Apart(StripConfig(i, mapWidth, height), StripConfig(j, mapWidth, height)) {
      MulMonotone(i, j, mapWidth);
    }
  }

  /** While the console is wide enough for all strips, strip i starts at column i * width. */
  lemma StripOffset(i: nat, count: nat, mapWidth: uint16, mapHeight: uint16, screenWidth: uint16, screenHeight: uint16)
    requires i < count && count * mapWidth <= screenWidth
    ensures MapConfigOf(i, mapWidth, mapHeight, screenWidth, screenHeight).x == i * mapWidth
    ensures i * mapWidth + mapWidth <= count * mapWidth
  {
    hide Low16;
    MulMonotone(i, count, mapWidth);
    Low16Small(i * mapWidth);
    Low16Small(screenWidth - mapWidth);
  }

  lemma Low16Small(n: int)
    ensures 0 <= n < 0x1_0000 ==> Low16(n) == n
  {
  }

  /** The constructor's clamp leaves every strip where it is exactly when the console holds them all. */
  lemma OffsetsKeptIff(count: nat, mapWidth: uint16, mapHeight: uint16, screenWidth: uint16, screenHeight: uint16)
    requires count > 0 && count * mapWidth < 0x1_0000
    ensures (forall i :: 0 <= i < count ==>
              MapConfigOf(i, mapWidth, mapHeight, screenWidth, screenHeight) == StripConfig(i, mapWidth, mapHeight))
       <==> count * mapWidth <= screenWidth && mapHeight <= screenHeight
  {
    hide MapConfigOf;
    if mapHeight > screenHeight {
      RowMoves(0, mapWidth, mapHeight, screenWidth, screenHeight);
    } else if count * mapWidth <= screenWidth {
      forall i | 0 <= i < count
        ensures MapConfigOf(i, mapWidth, mapHeight, screenWidth, screenHeight) == StripConfig(i, mapWidth, mapHeight)
      {
        KeptStrip(i, count, mapWidth, mapHeight, screenWidth, screenHeight);
      }
    } else if mapWidth > screenWidth {
      TooWide(0, count, mapWidth, mapHeight, screenWidth, screenHeight);
    } else {
      LastStripMoves(count, mapWidth, mapHeight, screenWidth, screenHeight);
    }
  }

  lemma RowMoves(i: nat, mapWidth: uint16, mapHeight: uint16, screenWidth: uint16, screenHeight: uint16)
    requires mapHeight > screenHeight
    ensures MapConfigOf(i, mapWidth, mapHeight, screenWidth, screenHeight).y != StripConfig(i, mapWidth, mapHeight).y
  {
  }

  /** A map wider than the console wraps its offset around, wherever its strip was. */
  lemma TooWide(i: nat, count: nat, mapWidth: uint16, mapHeight: uint16, screenWidth: uint16, screenHeight: uint16)
    requires i < count && count * mapWidth < 0x1_0000 && mapWidth > screenWidth
    ensures MapConfigOf(i, mapWidth, mapHeight, screenWidth, screenHeight).x == screenWidth - mapWidth + 0x1_0000
    ensures StripConfig(i, mapWidth, mapHeight).x == i * mapWidth < screenWidth - mapWidth + 0x1_0000
  {
    hide Low16;
    MulMonotone(i, count, mapWidth);
    Low16Small(i * mapWidth);
    Low16Negative(screenWidth - mapWidth);
  }

  lemma Low16Negative(n: int)
    ensures -0x1_0000 < n < 0 ==> Low16(n) == n + 0x1_0000
  {
  }

  lemma KeptStrip(i: nat, count: nat, mapWidth: uint16, mapHeight: uint16, screenWidth: uint16, screenHeight: uint16)
    requires i < count && count * mapWidth <= screenWidth && mapHeight <= screenHeight
    ensures MapConfigOf(i, mapWidth, mapHeight, screenWidth, screenHeight) == StripConfig(i, mapWidth, mapHeight)
  {
    MulMonotone(i, count, mapWidth);
  }

  /** Otherwise the last strip is pushed to the console's right edge, onto its neighbour. */
  lemma LastStripMoves(count: nat, mapWidth: uint16, mapHeight: uint16, screenWidth: uint16, screenHeight: uint16)
    requires count > 0 && 0 < mapWidth <= screenWidth < count * mapWidth < 0x1_0000
    ensures MapConfigOf(count - 1, mapWidth, mapHeight, screenWidth, screenHeight).x == screenWidth - mapWidth
    ensures screenWidth - mapWidth < (count - 1) * mapWidth == StripConfig(count - 1, mapWidth, mapHeight).x
  {
    MulMonotone(count - 1, count, mapWidth);
    assert (count - 1) * mapWidth + mapWidth == count * mapWidth;
  }

  /** The maps' strips are pairwise apart exactly when the console holds them all. */
  lemma StripsApartIff(count: nat, mapWidth: uint16, mapHeight: uint16, screenWidth: uint16, screenHeight: uint16)
    requires count >= 2 && count * mapWidth < 0x1_0000
    ensures (forall i, j :: 0 <= i < j < count ==>
              Apart(MapConfigOf(i, mapWidth, mapHeight, screenWidth, screenHeight),
                    MapConfigOf(j, mapWidth, mapHeight, screenWidth, screenHeight)))
       <==> count * mapWidth <= screenWidth
  {
    hide MapConfigOf;
    if count * mapWidth <= screenWidth {
      forall i, j | 0 <= i < j < count
        ensures Apart(MapConfigOf(i, mapWidth, mapHeight, screenWidth, screenHeight),
                      MapConfigOf(j, mapWidth, mapHeight, screenWidth, screenHeight))
      {
        StripsApart(i, j, count, mapWidth, mapHeight, screenWidth, screenHeight);
      }
    } else if mapWidth > screenWidth {
      TooWide(0, count, mapWidth, mapHeight, screenWidth, screenHeight);
      TooWide(1, count, mapWidth, mapHeight, screenWidth, screenHeight);
      SameSize(0, mapWidth, mapHeight, screenWidth, screenHeight);
      SameSize(1, mapWidth, mapHeight, screenWidth, screenHeight);
      assert !Apart(MapConfigOf(0, mapWidth, mapHeight, screenWidth, screenHeight),
                    MapConfigOf(1, mapWidth, mapHeight, screenWidth, screenHeight));
    } else {
      LastStripsOverlap(count, mapWidth, mapHeight, screenWidth, screenHeight);
    }
  }

  lemma StripsApart(i: nat, j: nat, count: nat, mapWidth: uint16, mapHeight: uint16,
                    screenWidth: uint16, screenHeight: uint16)
    requires i < j < count && count * mapWidth <= screenWidth
    ensures Apart(MapConfigOf(i, mapWidth, mapHeight, screenWidth, screenHeight),
                  MapConfigOf(j, mapWidth, mapHeight, screenWidth, screenHeight))
  {
    StripOffset(i, count, mapWidth, mapHeight, screenWidth, screenHeight);
    StripOffset(j, count, mapWidth, mapHeight, screenWidth, screenHeight);
    MulMonotone(i, j, mapWidth);
  }

  lemma LastStripsOverlap(count: nat, mapWidth: uint16, mapHeight: uint16, screenWidth: uint16, screenHeight: uint16)
    requires count >= 2 && 0 < mapWidth <= screenWidth < count * mapWidth < 0x1_0000
    ensures !Apart(MapConfigOf(count - 2, mapWidth, mapHeight, screenWidth, screenHeight),
                   MapConfigOf(count - 1, mapWidth, mapHeight, screenWidth, screenHeight))
  {
    LastStripMoves(count, mapWidth, mapHeight, screenWidth, screenHeight);
    MulMonotone(count - 2, count - 1, mapWidth);
    MulMonotone(count - 1, count, mapWidth);
    assert (count - 2) * mapWidth + mapWidth == (count - 1) * mapWidth;
    assert (count - 1) * mapWidth + mapWidth == count * mapWidth;
  }

  lemma SameSize(i: nat, mapWidth: uint16, mapHeight: uint16, screenWidth: uint16, screenHeight: uint16)
    ensures MapConfigOf(i, mapWidth, mapHeight, screenWidth, screenHeight).width == mapWidth
    ensures MapConfigOf(i, mapWidth, mapHeight, screenWidth, screenHeight).height == mapHeight
    ensures mapHeight <= screenHeight ==> MapConfigOf(i, mapWidth, mapHeight, screenWidth, screenHeight).y == 0
  {
  }

  // Food.

  /** The random position of one piece of food. */
  datatype Draw = Draw(x: uint16, y: uint16)

  /** sim::rand(1, size - 1) truncated: a position strictly inside the border. */
  predicate Drawn(d: Draw, width: nat, height: nat) {
    1 <= d.x < width - 1 && 1 <= d.y < height - 1
  }

  function Next64(id: uint64): uint64 {
    (id + 1) % 0x1_0000_0000_0000_0000
  }

  function Food(id: uint64, d: Draw): Entity {
    Entity(id, d.x, d.y, 0, 0, FOOD_STYLE, FOOD_TYPE)
  }

  function Foods(id: uint64, draws: seq<Draw>): (es: seq<Entity>)
    ensures |es| == |draws|
    decreases |draws|
  {
    if draws == [] then [] else [Food(id, draws[0])] + Foods(Next64(id), draws[1..])
  }

  predicate AllDrawn(draws: seq<Draw>, width: nat, height: nat) {
    forall k :: 0 <= k < |draws| ==> Drawn(draws[k], width, height)
  }

  /** Food lies strictly inside the border of its map and does not move. */
  lemma {:induction false} FoodsInterior(id: uint64, draws: seq<Draw>, width: nat, height: nat)
    requires AllDrawn(draws, width, height)
    ensures forall k :: 0 <= k < |draws| ==>
              var e := Foods(id, draws)[k];
              && Interior(e, width, height) && InsideMap(e, width, height)
              && e.veloX == 0 && e.veloY == 0 && e.style == FOOD_STYLE
    decreases |draws|
  {
    if draws != [] {
      FoodsInterior(Next64(id), draws[1..], width, height);
    }
  }

  /** An index of a map with this food on it: every occupant is a piece of it, in its own cell. */
  predicate FoodIndex(g: Grid, id: uint64, draws: seq<Draw>, width: uint16, height: uint16) {
    |g| == width * height && NoGhosts(g, Foods(id, draws), width)
  }

  /** Updating such an index never throws and gives such an index again. */
  lemma FoodIndexed(g: Grid, id: uint64, draws: seq<Draw>, width: uint16, height: uint16)
    requires FoodIndex(g, id, draws, width, height) && AllDrawn(draws, width, height)
    ensures var o := Apply(g, Stores(Foods(id, draws), width));
            o.Updated? && FoodIndex(o.grid, id, draws, width, height)
  {
    hide Apply, Stores, NewCell, OldCell, Visited;
    var es := Foods(id, draws);
    FoodsInterior(id, draws, width, height);
    forall k | 0 <= k < |Stores(es, width)| ensures 0 <= Stores(es, width)[k].cell < |g| {
      StoreAt(es, width, k);
      StandsStill(es[k / 2], width);
      CellIsPosition(es[k / 2], width, height, 0, 0);
      assert k % 2 == 0 || k % 2 == 1;
    }
    UpdatedIff(g, Stores(es, width));
    StaysMoved(es, width);
    MovingKeepsNoGhosts(g, es, es, width);
  }

  lemma EmptyFoodIndex(id: uint64, draws: seq<Draw>, width: uint16, height: uint16)
    ensures FoodIndex(EmptyGrid(width * height), id, draws, width, height)
  {
  }

  lemma FirstFood(g: Grid, id: uint64, draws: seq<Draw>, width: uint16, height: uint16)
    requires |g| == width * height && AllDrawn(draws, width, height) && forall c :: 0 <= c < |g| ==> g[c] == None
    ensures Apply(g, Stores(Foods(id, draws), width)).Updated?
  {
    hide Apply, Stores, Foods, AllDrawn, NewCell;
    FoodIndexed(g, id, draws, width, height);
  }

  lemma StaysMoved(es: seq<Entity>, width: nat)
    ensures Moved(es, es, width)
  {
    hide NewCell, OldCell;
    forall e | e in es ensures Visited(es, width, NewCell(e, width)) {
      var i :| 0 <= i < |es| && es[i] == e;
    }
  }

  /** The same food, update after update. */
  function FoodRounds(id: uint64, draws: seq<Draw>, rounds: nat): (lists: seq<seq<Entity>>)
    ensures |lists| == rounds
    ensures forall k :: 0 <= k < rounds ==> lists[k] == Foods(id, draws)
  {
    seq(rounds, _ => Foods(id, draws))
  }

  predicate OnlyFood(g: Grid, width: nat, height: nat) {
    forall k :: 0 <= k < |g| && g[k].Some? ==>
      Interior(g[k].value, width, height) && g[k].value.style == FOOD_STYLE
  }

  /** Any number of updates of a map with food never throws, and at every moment the index holds only food, each piece
      in its own cell strictly inside the border. */
  lemma {:induction false} FoodStaysIndexed(g: Grid, id: uint64, draws: seq<Draw>, width: uint16, height: uint16,
                                            rounds: nat)
    requires FoodIndex(g, id, draws, width, height) && AllDrawn(draws, width, height)
    ensures var grids := IndexHistory(g, FoodRounds(id, draws, rounds), width);
            && |grids| == rounds
            && forall k :: 0 <= k < rounds ==>
                 FoodIndex(grids[k], id, draws, width, height) && OnlyFood(grids[k], width, height)
                 && AllInterior(grids[k], width, height) && AllInside(grids[k], width, height)
  {
    hide Apply, Stores, FoodIndex, OnlyFood, AllInterior, AllInside, Foods, AllDrawn;
    if rounds > 0 {
      var lists := FoodRounds(id, draws, rounds);
      assert lists[..rounds - 1] == FoodRounds(id, draws, rounds - 1);
      FoodStaysIndexed(g, id, draws, width, height, rounds - 1);
      var now := Latest(g, IndexHistory(g, lists[..rounds - 1], width));
      FoodIndexed(now, id, draws, width, height);
      FoodIndexInside(Apply(now, Stores(Foods(id, draws), width)).grid, id, draws, width, height);
    }
  }

  lemma FoodIndexInside(g: Grid, id: uint64, draws: seq<Draw>, width: uint16, height: uint16)
    requires FoodIndex(g, id, draws, width, height) && AllDrawn(draws, width, height)
    ensures OnlyFood(g, width, height) && AllInterior(g, width, height) && AllInside(g, width, height)
  {
    hide NewCell;
    FoodsInterior(id, draws, width, height);
  }

  lemma StandsStill(e: Entity, width: nat)
    requires e.veloX == 0 && e.veloY == 0
    ensures OldCell(e, width) == NewCell(e, width)
  {
  }

  class Environment {
    const mapCount: nat
    const mapWidth: uint16
    const mapHeight: uint16
    const buffer: ConsoleBuffer
    var maps: seq<Map>
    var incoming: seq<seq<Entity>>
    var idCount: uint64

    predicate Valid()
      reads this, buffer, maps
    {
      && mapCount > 0 && |incoming| == mapCount
      && buffer.Valid()
      && (forall i :: 0 <= i < |maps| ==> maps[i].buffer == buffer && maps[i].Valid())
    }

    constructor (config: MapConfig, count: nat)
      requires count > 0
      ensures Valid() && maps == [] && incoming == seq(count, _ => []) && idCount == 0
      ensures mapCount == count && mapWidth == config.width / count && mapHeight == config.height
      ensures buffer.width == config.width && buffer.height == config.height
      ensures fresh(buffer) && fresh(buffer.cells)
    {
      mapCount, mapWidth, mapHeight := count, config.width / count, config.height;
      buffer := new ConsoleBuffer(config.width, config.height);
      maps, incoming, idCount := [], seq(count, _ => []), 0;
    }

    /** m_instanciate_maps: one map to a strip, all drawing on the shared buffer. */
    method InstantiateMaps(screenWidth: uint16, screenHeight: uint16)
      requires Valid() && maps == []
      modifies this
      ensures Valid() && |maps| == mapCount && incoming == old(incoming) && idCount == old(idCount)
      ensures forall i :: 0 <= i < mapCount ==>
                && maps[i].config == MapConfigOf(i, mapWidth, mapHeight, screenWidth, screenHeight)
                && fresh(maps[i].grid)
                && forall k :: 0 <= k < maps[i].grid.Length ==> maps[i].grid[k] == None
      ensures forall i, j :: 0 <= i < j < mapCount ==> maps[i].grid != maps[j].grid
    {
      hide Clamped, MapConfigOf;
      var config := MapConfig(0, 0, mapWidth, mapHeight, BOTTOM_WALL, TOP_WALL, NO_WALLS, NO_WALLS);
      for i := 0 to mapCount
        invariant Valid() && |maps| == i && incoming == old(incoming) && idCount == old(idCount)
        invariant config == MapConfig(config.x, 0, mapWidth, mapHeight, BOTTOM_WALL, TOP_WALL, config.wallThree,
                                      NO_WALLS)
        invariant forall j :: 0 <= j < i ==>
                    && maps[j].config == MapConfigOf(j, mapWidth, mapHeight, screenWidth, screenHeight)
                    && fresh(maps[j].grid)
                    && forall k :: 0 <= k < maps[j].grid.Length ==> maps[j].grid[k] == None
        invariant forall j, k :: 0 <= j < k < i ==> maps[j].grid != maps[k].grid
      {
        config := config.(wallThree := if i % 2 > 0 then RIGHT_WALL else LEFT_WALL);
        config := config.(x := Low16(i * mapWidth));
        ConfigOf(i, config, screenWidth, screenHeight);
        var m := new Map(config, buffer, screenWidth, screenHeight);
        maps := maps + [m];
      }
    }

    lemma ConfigOf(i: nat, config: MapConfig, screenWidth: uint16, screenHeight: uint16)
      requires config == StripConfig(i, mapWidth, mapHeight)
      ensures Clamped(config, screenWidth, screenHeight)
           == MapConfigOf(i, mapWidth, mapHeight, screenWidth, screenHeight)
    {
    }

    /** One map's share of m_create_entities: food at the drawn positions, then the map's index is updated. */
    method FeedMap(k: nat, draws: seq<Draw>) returns (thrown: bool)
      requires Valid() && k < |maps| == mapCount
      modifies this, maps[k].grid, buffer.cells
      ensures Valid() && maps == old(maps)
      ensures incoming == old(incoming)[k := old(incoming)[k] + Foods(old(idCount), draws)]
      ensures idCount == (old(idCount) + |draws|) % 0x1_0000_0000_0000_0000
      ensures var o := Apply(old(maps[k].grid[..]), Stores(incoming[k], maps[k].config.width));
              maps[k].grid[..] == o.grid && thrown == o.OutOfRange?
      ensures buffer.cells[..]
           == if thrown then old(buffer.cells[..])
              else Paint(old(buffer.cells[..]), buffer.width, buffer.height,
                         RenderGlyphs(maps[k].config, maps[k].grid[..]))
    {
      hide Apply, Stores, Paint, RenderGlyphs;
      assert draws[..0] == [] && incoming[k] + [] == incoming[k];
      for i := 0 to |draws|
        invariant Valid() && maps == old(maps) && idCount == IdAfter(old(idCount), i)
        invariant incoming == old(incoming)[k := old(incoming)[k] + Foods(old(idCount), draws[..i])]
        invariant maps[k].grid[..] == old(maps[k].grid[..]) && buffer.cells[..] == old(buffer.cells[..])
      {
        FoodsNext(old(idCount), draws, i);
        var food := Food(idCount, draws[i]);
        assert old(incoming)[k] + Foods(old(idCount), draws[..i]) + [food]
            == old(incoming)[k] + Foods(old(idCount), draws[..i + 1]);
        incoming := incoming[k := incoming[k] + [food]];
        idCount := Next64(idCount);
      }
      assert draws[..|draws|] == draws;
      IdCounts(old(idCount), |draws|);
      thrown := maps[k].UpdateEntities(incoming[k]);
    }

    /** The map is as m_instanciate_maps leaves it. */
    predicate Blank(m: Map)
      reads m.grid
    {
      && m.config.width == mapWidth && m.grid.Length == mapWidth * mapHeight
      && forall c :: 0 <= c < m.grid.Length ==> m.grid[c] == None
    }

    /** All maps are, with indices of their own and no food yet, and all food is drawn strictly inside their borders. */
    predicate Unfed(draws: seq<seq<Draw>>)
      requires |incoming| == |maps| == |draws|
      reads this, maps, set m | m in maps :: m.grid
    {
      && (forall i :: 0 <= i < |maps| ==> Blank(maps[i]) && incoming[i] == [])
      && (forall i, j :: 0 <= i < j < |maps| ==> maps[i].grid != maps[j].grid)
      && (forall i :: 0 <= i < |draws| ==> AllDrawn(draws[i], mapWidth, mapHeight))
    }

    lemma BlankTakesFood(m: Map, es: seq<Entity>, id: uint64, draws: seq<Draw>)
      requires Blank(m) && AllDrawn(draws, mapWidth, mapHeight) && es == []
      ensures Apply(m.grid[..], Stores(es + Foods(id, draws), m.config.width)).Updated?
    {
      hide Apply, Stores, Foods, AllDrawn;
      assert es + Foods(id, draws) == Foods(id, draws);
      FirstFood(m.grid[..], id, draws, mapWidth, mapHeight);
    }

    /** FeedMap, as far as the numbering, the vectors and throwing are concerned. */
    method FeedNext(k: nat, draws: seq<Draw>) returns (thrown: bool)
      requires Valid() && k < |maps| == mapCount && |draws| == MAX_FOOD_PER_MAP
      modifies this, maps[k].grid, buffer.cells
      ensures Valid() && maps == old(maps)
      ensures forall id :: idCount == NumberOf(id, k + 1) || old(idCount) != NumberOf(id, k)
      ensures incoming == old(incoming)[k := old(incoming)[k] + Foods(old(idCount), draws)]
      ensures old(Blank(maps[k])) && old(incoming[k]) == [] && AllDrawn(draws, mapWidth, mapHeight) ==> !thrown
    {
      hide Foods, Apply, Stores, Paint, RenderGlyphs, NumberOf, AllDrawn, Blank;
      forall id | idCount == NumberOf(id, k)
        ensures (idCount + |draws|) % 0x1_0000_0000_0000_0000 == NumberOf(id, k + 1)
      {
        NumberNext(id, k);
      }
      if Blank(maps[k]) && incoming[k] == [] && AllDrawn(draws, mapWidth, mapHeight) {
        BlankTakesFood(maps[k], incoming[k], idCount, draws);
      }
      thrown := FeedMap(k, draws);
    }

    /** m_create_entities: every map in turn is given its food, numbered on from map to map, until an update throws. */
    method CreateEntities(draws: seq<seq<Draw>>) returns (thrown: bool)
      requires Valid() && |draws| == |maps| == mapCount
      requires forall i :: 0 <= i < mapCount ==> |draws[i]| == MAX_FOOD_PER_MAP
      modifies this, (set m | m in maps :: m.grid), buffer.cells
      ensures Valid() && maps == old(maps)
      ensures !thrown ==>
                && idCount == NumberOf(old(idCount), mapCount)
                && forall i :: 0 <= i < mapCount ==>
                     incoming[i] == old(incoming)[i] + Foods(NumberOf(old(idCount), i), draws[i])
      ensures old(Unfed(draws)) ==> !thrown
    {
      ghost var unfed := Unfed(draws);
      hide Foods, NumberOf, AllDrawn, Blank;
      IdWraps(idCount);
      for k := 0 to mapCount
        invariant Valid() && maps == old(maps) && idCount == NumberOf(old(idCount), k)
        invariant forall i :: 0 <= i < k ==>
                    incoming[i] == old(incoming)[i] + Foods(NumberOf(old(idCount), i), draws[i])
        invariant forall i :: k <= i < mapCount ==> incoming[i] == old(incoming)[i]
        invariant unfed ==> forall i :: k <= i < mapCount ==> Blank(maps[i])
      {
        assert maps[k] in maps;
        thrown := FeedNext(k, draws[k]);
        if thrown {
          return;
        }
      }
      thrown := false;
    }
  }

  /** The counter after n increments. */
  function IdAfter(id: uint64, n: nat): uint64 {
    if n == 0 then id else Next64(IdAfter(id, n - 1))
  }

  lemma {:induction false} IdAfterNext(id: uint64, n: nat)
    ensures IdAfter(Next64(id), n) == IdAfter(id, n + 1)
  {
    hide Next64;
    if n > 0 {
      IdAfterNext(id, n - 1);
    }
  }

  lemma {:induction false} FoodsNext(id: uint64, draws: seq<Draw>, i: nat)
    requires i < |draws|
    ensures Foods(id, draws[..i + 1]) == Foods(id, draws[..i]) + [Food(IdAfter(id, i), draws[i])]
    ensures Next64(IdAfter(id, i)) == IdAfter(id, i + 1)
    decreases i
  {
    hide Next64;
    if i > 0 {
      FoodsNext(Next64(id), draws[1..], i - 1);
      assert draws[..i + 1][1..] == draws[1..][..i];
      assert draws[..i][1..] == draws[1..][..i - 1];
      IdAfterNext(id, i - 1);
    } else {
      assert draws[..0] == [] && draws[..1] == [draws[0]] && draws[..1][1..] == [];
    }
  }

  lemma {:induction false} FoodsSuffix(id: uint64, draws: seq<Draw>, k: nat)
    requires k <= |draws|
    ensures Foods(id, draws)[k..] == Foods(IdAfter(id, k), draws[k..])
    decreases k
  {
    hide Next64;
    if k == 0 {
      assert draws[0..] == draws;
    } else {
      FoodsSuffix(Next64(id), draws[1..], k - 1);
      IdAfterNext(id, k - 1);
      assert draws[1..][k - 1..] == draws[k..];
      assert Foods(id, draws)[1..] == Foods(Next64(id), draws[1..]);
      assert Foods(id, draws)[1..][k - 1..] == Foods(id, draws)[k..];
    }
  }

  lemma {:induction false} IdCounts(id: uint64, n: nat)
    ensures IdAfter(id, n) == (id + n) % 0x1_0000_0000_0000_0000
  {
    hide Next64;
    if n > 0 {
      IdCounts(id, n - 1);
      NextAfterWrap(id + n - 1);
    } else {
      NoWrap(id);
    }
  }

  lemma NextAfterWrap(n: nat)
    ensures Next64(n % 0x1_0000_0000_0000_0000) == (n + 1) % 0x1_0000_0000_0000_0000
  {
  }

  lemma NoWrap(id: uint64)
    ensures id % 0x1_0000_0000_0000_0000 == id
  {
  }

  /** The number of map i's first piece of food, when the first map's is id. */
  function NumberOf(id: uint64, i: nat): uint64 {
    (id + i * MAX_FOOD_PER_MAP) % 0x1_0000_0000_0000_0000
  }

  lemma IdWraps(id: uint64)
    ensures NumberOf(id, 0) == id
  {
  }

  lemma NumberNext(id: uint64, i: nat)
    ensures (NumberOf(id, i) + 500) % 0x1_0000_0000_0000_0000 == NumberOf(id, i + 1)
  {
  }

  /** Every piece of food, field by field: numbered consecutively, at its drawn position, at rest, and food. */
  lemma FoodExact(id: uint64, draws: seq<Draw>, k: nat)
    requires k < |draws|
    ensures Foods(id, draws)[k]
         == Entity((id + k) % 0x1_0000_0000_0000_0000, draws[k].x, draws[k].y, 0, 0, '.' as int, 2)
  {
    FoodsSuffix(id, draws, k);
    IdCounts(id, k);
    assert Foods(id, draws)[k] == Foods(id, draws)[k..][0];
  }
}
