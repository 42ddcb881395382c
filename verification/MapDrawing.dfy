/** What the drawing of common/utilities/Map.cpp leaves on the screen, position by position. */
module MapDrawing {
  import opened Bytes
  import opened Params
  import opened Flat
  import opened Grids
  import opened Screens
  import opened Maps

  // Lines.

  /** The positions a line covers, in map coordinates, for any arguments whatever. */
  predicate OnLine(c: MapConfig, x: int, y: int, w: int, h: int, mx: int, my: int) {
    var x1, y1 := Min(x, w), StartRow(x, y, w, h);
    || (my == y1 && x1 <= mx <= Min(w, c.width - 1))
    || (mx == x1 && y1 <= my <= Min(h, c.height - 1))
  }

  lemma LineHits(c: MapConfig, x: int, y: int, w: int, h: int, ch: byte, px: int, py: int)
    ensures Misses(LineGlyphs(c, x, y, w, h, ch), px, py) <==> !OnLine(c, x, y, w, h, px - c.x, py - c.y)
  {
    hide LineGlyphs, StartRow;
    LineGlyphsAt(c, x, y, w, h, ch);
    var all := LineGlyphs(c, x, y, w, h, ch);
    var x1, y1 := Min(x, w), StartRow(x, y, w, h);
    var n := Extent(x1, w, c.width);
    if OnLine(c, x, y, w, h, px - c.x, py - c.y) {
      if py - c.y == y1 && x1 <= px - c.x <= Min(w, c.width - 1) {
        assert Hits(all[px - c.x - x1], px, py);
      } else {
        assert Hits(all[n + (py - c.y - y1)], px, py);
      }
    }
  }

  lemma {:induction false} UniformPixel(gs: seq<Glyph>, ch: byte, x: int, y: int, before: byte)
    requires forall k :: 0 <= k < |gs| ==> gs[k].ch == ch
    ensures LastGlyph(gs, x, y, before) == if Misses(gs, x, y) then before else ch
  {
    if gs != [] {
      var n := |gs| - 1;
      UniformPixel(gs[..n], ch, x, y, before);
      if !Hits(gs[n], x, y) {
        assert Misses(gs, x, y) <==> Misses(gs[..n], x, y) by {
          assert forall k :: 0 <= k < n ==> gs[..n][k] == gs[k];
          if Misses(gs[..n], x, y) {
            forall k | 0 <= k < |gs| ensures !Hits(gs[k], x, y) {
              assert k < n ==> gs[..n][k] == gs[k];
            }
          }
        }
      }
    }
  }

  /** draw_line puts its character on exactly the positions of the line and leaves all others alone. */
  lemma LineExact(c: MapConfig, x: int, y: int, w: int, h: int, ch: byte, px: int, py: int, before: byte)
    ensures LastGlyph(LineGlyphs(c, x, y, w, h, ch), px, py, before)
         == if OnLine(c, x, y, w, h, px - c.x, py - c.y) then ch else before
  {
    hide LineGlyphs, OnLine;
    LineGlyphsAt(c, x, y, w, h, ch);
    LineHits(c, x, y, w, h, ch, px, py);
    UniformPixel(LineGlyphs(c, x, y, w, h, ch), ch, px, py, before);
  }

  /** The row draw_line starts in: the end's row for anything that leads to the right. */
  function FirstRow(x: int, y: int, w: int, h: int): int {
    if x < w then h else Min(y, h)
  }

  lemma FirstRowIsStartRow(x: int, y: int, w: int, h: int)
    ensures StartRow(x, y, w, h) == FirstRow(x, y, w, h)
  {
  }

  predicate WithinMap(c: MapConfig, mx: int, my: int) {
    0 <= mx < c.width && 0 <= my < c.height
  }

  /** The first position drawn lies inside the map, or both runs start behind the map's far edges. */
  predicate StaysInside(c: MapConfig, x: int, y: int, w: int, h: int) {
    var x1, y1 := Min(x, w), FirstRow(x, y, w, h);
    WithinMap(c, x1, y1) || (c.width <= x1 && c.height <= y1)
  }

  /** draw_line cuts the end of a line but not its start: nothing is drawn outside the map exactly under this guard,
      whatever the arguments. */
  lemma LineStaysInsideIff(c: MapConfig, x: int, y: int, w: int, h: int)
    ensures (forall mx, my :: OnLine(c, x, y, w, h, mx, my) ==> WithinMap(c, mx, my)) <==> StaysInside(c, x, y, w, h)
  {
    hide StartRow;
    FirstRowIsStartRow(x, y, w, h);
    var x1, y1 := Min(x, w), FirstRow(x, y, w, h);
    assert OnLine(c, x, y, w, h, x1, y1) <==> x1 < c.width || y1 < c.height;
  }

  /** The straight line between two points, cut to the map: what draw_line is meant to draw. */
  predicate OnSegment(c: MapConfig, x: int, y: int, w: int, h: int, mx: int, my: int) {
    && WithinMap(c, mx, my)
    && (x <= mx <= w || w <= mx <= x)
    && (y <= my <= h || h <= my <= y)
  }

  /** Besides starting inside, the line must lead to the right and down, or end at the map's far edge: points in the
      wrong order are not swapped, the start is moved onto the end. */
  predicate DrawsSegment(c: MapConfig, x: int, y: int, w: int, h: int) {
    && StaysInside(c, x, y, w, h)
    && (WithinMap(c, Min(x, w), FirstRow(x, y, w, h)) ==> (x <= w || w == c.width - 1) && (y <= h || h == c.height - 1))
  }

  /** For a straight line draw_line draws the segment cut to the map exactly under this guard. */
  lemma LineIsSegmentIff(c: MapConfig, x: int, y: int, w: int, h: int)
    requires x == w || y == h
    ensures (forall mx, my :: OnLine(c, x, y, w, h, mx, my) <==> OnSegment(c, x, y, w, h, mx, my))
       <==> DrawsSegment(c, x, y, w, h)
  {
    hide StartRow;
    FirstRowIsStartRow(x, y, w, h);
    LineStaysInsideIff(c, x, y, w, h);
    var x1, y1 := Min(x, w), FirstRow(x, y, w, h);
    if StaysInside(c, x, y, w, h) && !DrawsSegment(c, x, y, w, h) {
      var mx, my := if x > w then w + 1 else w, if y > h then h + 1 else h;
      assert OnSegment(c, x, y, w, h, mx, my) && !OnLine(c, x, y, w, h, mx, my);
    }
    if !StaysInside(c, x, y, w, h) {
      var mx, my :| OnLine(c, x, y, w, h, mx, my) && !WithinMap(c, mx, my);
      assert !OnSegment(c, x, y, w, h, mx, my);
    }
  }

  // Walls.

  predicate InMap(c: MapConfig, px: int, py: int) {
    WithinMap(c, px - c.x, py - c.y)
  }

  /** The wall runs through this position, given in map coordinates. On a map without columns or rows walls still have
      a run of one, at column or row -1 or 0. */
  predicate Covers(c: MapConfig, wall: uint16, mx: int, my: int) {
    var left, top := Min(0, c.width - 1), Min(0, c.height - 1);
    || (wall == RIGHT_WALL && mx == c.width - 1 && top <= my < c.height)
    || (wall == LEFT_WALL && mx == 0 && top <= my < c.height)
    || (wall == TOP_WALL && my == 0 && left <= mx < c.width)
    || (wall == BOTTOM_WALL && my == c.height - 1 && left <= mx < c.width)
  }

  function WallChar(wall: uint16): byte {
    if wall == RIGHT_WALL || wall == LEFT_WALL then BAR else DASH
  }

  /** The character of the last of the walls that covers the position. */
  function LastWall(c: MapConfig, walls: seq<uint16>, mx: int, my: int, before: byte): byte {
    if walls == [] then before
    else if Covers(c, walls[|walls| - 1], mx, my) then WallChar(walls[|walls| - 1])
    else LastWall(c, walls[..|walls| - 1], mx, my, before)
  }

  lemma WallExact(c: MapConfig, wall: uint16, px: int, py: int, before: byte)
    ensures Misses(WallGlyphs(c, wall), px, py) <==> !Covers(c, wall, px - c.x, py - c.y)
    ensures LastGlyph(WallGlyphs(c, wall), px, py, before)
         == if Covers(c, wall, px - c.x, py - c.y) then WallChar(wall) else before
  {
    hide LineGlyphs, LastGlyph;
    var right, bottom: int := c.width - 1, c.height - 1;
    if wall == RIGHT_WALL {
      LineHits(c, right, 0, right, bottom, BAR, px, py);
      LineExact(c, right, 0, right, bottom, BAR, px, py, before);
    } else if wall == LEFT_WALL {
      LineHits(c, 0, 0, 0, bottom, BAR, px, py);
      LineExact(c, 0, 0, 0, bottom, BAR, px, py, before);
    } else if wall == TOP_WALL {
      LineHits(c, 0, 0, right, 0, DASH, px, py);
      LineExact(c, 0, 0, right, 0, DASH, px, py, before);
    } else if wall == BOTTOM_WALL {
      LineHits(c, 0, bottom, right, bottom, DASH, px, py);
      LineExact(c, 0, bottom, right, bottom, DASH, px, py, before);
    } else {
      MissedPixel([], px, py, before);
    }
  }

  /** The four kinds of wall by number, on a map with cells: right, left, top, bottom, with their characters. */
  lemma WallByNumber(c: MapConfig, wall: uint16, px: int, py: int, before: byte)
    requires c.width > 0 && c.height > 0
    ensures LastGlyph(WallGlyphs(c, wall), px, py, before)
         == if !(c.x <= px < c.x + c.width && c.y <= py < c.y + c.height) then before
            else if wall == 1 && px == c.x + c.width - 1 then '|' as int
            else if wall == 2 && px == c.x then '|' as int
            else if wall == 3 && py == c.y then '-' as int
            else if wall == 4 && py == c.y + c.height - 1 then '-' as int
            else before
  {
    hide WallGlyphs, LastGlyph;
    WallExact(c, wall, px, py, before);
  }

  /** A wall is drawn with its own character only. */
  lemma WallShows(c: MapConfig, wall: uint16, px: int, py: int)
    ensures ShowsOnly(WallGlyphs(c, wall), px, py, WallChar(wall))
  {
    hide LineGlyphs;
    var right, bottom: int := c.width - 1, c.height - 1;
    LineGlyphsAt(c, right, 0, right, bottom, BAR);
    LineGlyphsAt(c, 0, 0, 0, bottom, BAR);
    LineGlyphsAt(c, 0, 0, right, 0, DASH);
    LineGlyphsAt(c, 0, bottom, right, bottom, DASH);
  }

  function WallsOf(c: MapConfig): seq<uint16> {
    [c.wallOne, c.wallTwo, c.wallThree, c.wallFour]
  }

  /** start_up leaves a border on which each position shows the last of the four walls covering it; positions no
      wall covers are as before. */
  lemma StartUpExact(c: MapConfig, px: int, py: int, before: byte)
    ensures LastGlyph(StartUpGlyphs(c), px, py, before) == LastWall(c, WallsOf(c), px - c.x, py - c.y, before)
  {
    hide WallGlyphs, LastGlyph, Covers, WallChar;
    var one, two := WallGlyphs(c, c.wallOne), WallGlyphs(c, c.wallTwo);
    var three, four := WallGlyphs(c, c.wallThree), WallGlyphs(c, c.wallFour);
    LastGlyphConcat(one, two, px, py, before);
    LastGlyphConcat(one + two, three, px, py, before);
    LastGlyphConcat(one + two + three, four, px, py, before);
    WallExact(c, c.wallOne, px, py, before);
    WallExact(c, c.wallTwo, px, py, LastGlyph(one, px, py, before));
    WallExact(c, c.wallThree, px, py, LastGlyph(one + two, px, py, before));
    WallExact(c, c.wallFour, px, py, LastGlyph(one + two + three, px, py, before));
    var mx, my := px - c.x, py - c.y;
    LastWallSnoc(c, [], c.wallOne, mx, my, before);
    LastWallSnoc(c, [c.wallOne], c.wallTwo, mx, my, before);
    LastWallSnoc(c, [c.wallOne, c.wallTwo], c.wallThree, mx, my, before);
    LastWallSnoc(c, [c.wallOne, c.wallTwo, c.wallThree], c.wallFour, mx, my, before);
    assert [] + [c.wallOne] == [c.wallOne];
    assert [c.wallOne] + [c.wallTwo] == [c.wallOne, c.wallTwo];
    assert [c.wallOne, c.wallTwo] + [c.wallThree] == [c.wallOne, c.wallTwo, c.wallThree];
    assert [c.wallOne, c.wallTwo, c.wallThree] + [c.wallFour] == WallsOf(c);
    assert LastWall(c, [], mx, my, before) == before;
  }

  lemma LastWallSnoc(c: MapConfig, walls: seq<uint16>, last: uint16, mx: int, my: int, before: byte)
    ensures LastWall(c, walls + [last], mx, my, before)
         == if Covers(c, last, mx, my) then WallChar(last) else LastWall(c, walls, mx, my, before)
  {
    assert (walls + [last])[..|walls|] == walls;
  }

  predicate NoWallAt(c: MapConfig, mx: int, my: int) {
    && !Covers(c, c.wallOne, mx, my) && !Covers(c, c.wallTwo, mx, my)
    && !Covers(c, c.wallThree, mx, my) && !Covers(c, c.wallFour, mx, my)
  }

  /** start_up writes on exactly the positions of the four walls. */
  lemma StartUpHits(c: MapConfig, px: int, py: int)
    ensures Misses(StartUpGlyphs(c), px, py) <==> NoWallAt(c, px - c.x, py - c.y)
  {
    hide WallGlyphs, Covers;
    WallExact(c, c.wallOne, px, py, 0);
    WallExact(c, c.wallTwo, px, py, 0);
    WallExact(c, c.wallThree, px, py, 0);
    WallExact(c, c.wallFour, px, py, 0);
    var one, two := WallGlyphs(c, c.wallOne), WallGlyphs(c, c.wallTwo);
    var three, four := WallGlyphs(c, c.wallThree), WallGlyphs(c, c.wallFour);
    MissesConcat(one, two, px, py);
    MissesConcat(one + two, three, px, py);
    MissesConcat(one + two + three, four, px, py);
  }

  predicate Unwalled(wall: uint16) {
    wall != RIGHT_WALL && wall != LEFT_WALL && wall != TOP_WALL && wall != BOTTOM_WALL
  }

  /** All walls lie inside the map exactly when it has columns and rows, or no walls. */
  lemma WallsStayInsideIff(c: MapConfig)
    ensures (forall px, py :: !Misses(StartUpGlyphs(c), px, py) ==> InMap(c, px, py))
       <==> (c.width > 0 && c.height > 0)
            || (Unwalled(c.wallOne) && Unwalled(c.wallTwo) && Unwalled(c.wallThree) && Unwalled(c.wallFour))
  {
    hide StartUpGlyphs, Misses;
    forall px, py ensures Misses(StartUpGlyphs(c), px, py) <==> NoWallAt(c, px - c.x, py - c.y) {
      StartUpHits(c, px, py);
    }
    if c.width == 0 || c.height == 0 {
      forall w | w in WallsOf(c) && !Unwalled(w)
        ensures exists px, py :: !Misses(StartUpGlyphs(c), px, py) && !InMap(c, px, py)
      {
        var mx := if w == RIGHT_WALL then c.width - 1 else if w == LEFT_WALL then 0 else Min(0, c.width - 1);
        var my := if w == BOTTOM_WALL then c.height - 1 else if w == TOP_WALL then 0 else Min(0, c.height - 1);
        assert Covers(c, w, mx, my);
        assert !NoWallAt(c, (mx + c.x) - c.x, (my + c.y) - c.y);
        assert !Misses(StartUpGlyphs(c), mx + c.x, my + c.y);
      }
      assert c.wallOne in WallsOf(c) && c.wallTwo in WallsOf(c);
      assert c.wallThree in WallsOf(c) && c.wallFour in WallsOf(c);
    }
  }

  /** On a map with columns and rows, start_up writes inside the map only. */
  lemma StartUpConfined(c: MapConfig, px: int, py: int)
    requires c.width > 0 && c.height > 0 && !InMap(c, px, py)
    ensures Misses(StartUpGlyphs(c), px, py)
  {
    hide StartUpGlyphs;
    StartUpHits(c, px, py);
  }

  // Entities.

  predicate AllInside(g: Grid, width: nat, height: nat) {
    forall k :: 0 <= k < |g| && g[k].Some? ==> InsideMap(g[k].value, width, height)
  }

  predicate Interior(e: Entity, width: nat, height: nat) {
    0 < e.x < width - 1 && 0 < e.y < height - 1
  }

  predicate AllInterior(g: Grid, width: nat, height: nat) {
    forall k :: 0 <= k < |g| && g[k].Some? ==> Interior(g[k].value, width, height)
  }

  /** render writes to exactly the positions of the entities in the index. */
  lemma {:induction false} RenderHits(c: MapConfig, g: Grid, px: int, py: int)
    ensures Misses(RenderGlyphs(c, g), px, py)
       <==> forall k :: 0 <= k < |g| && g[k].Some? ==> !Hits(EntityGlyph(c, g[k].value), px, py)
  {
    if g != [] {
      var n := |g| - 1;
      RenderHits(c, g[..n], px, py);
      var front, all := RenderGlyphs(c, g[..n]), RenderGlyphs(c, g);
      if g[n].Some? {
        var last := EntityGlyph(c, g[n].value);
        assert all == front + [last] && all[|front|] == last;
        assert Misses(all, px, py) <==> Misses(front, px, py) && !Hits(last, px, py) by {
          assert forall k :: 0 <= k < |front| ==> all[k] == front[k];
        }
      }
      assert forall k :: 0 <= k < n ==> g[..n][k] == g[k];
    }
  }

  /** render shows exactly what the index holds: in an index free of ghosts whose entities lie inside the map, each
      position of the map shows its occupant, and is untouched if it has none. */
  lemma RenderExact(c: MapConfig, g: Grid, es: seq<Entity>, x: nat, y: nat, before: byte)
    requires |g| == c.width * c.height && NoGhosts(g, es, c.width) && AllInside(g, c.width, c.height)
    requires x < c.width && y < c.height
    ensures 0 <= y * c.width + x < |g|
    ensures LastGlyph(RenderGlyphs(c, g), c.x + x, c.y + y, before)
         == match g[y * c.width + x] case None => before case Some(e) => e.style
  {
    hide NewCell, RenderGlyphs;
    var px, py, k := c.x + x, c.y + y, y * c.width + x;
    IndexInRange(x, y, c.width, c.height);
    forall j | 0 <= j < |g| && g[j].Some?
      ensures Hits(EntityGlyph(c, g[j].value), px, py) <==> j == k
    {
      CellIsPosition(g[j].value, c.width, c.height, x, y);
    }
    RenderHits(c, g, px, py);
    var ch := match g[k] case None => before case Some(e) => e.style;
    RenderShows(c, g, px, py, ch);
    ShownPixel(RenderGlyphs(c, g), px, py, ch, before);
  }

  /** Where all occupants drawn at a position have the same character, render draws only that. */
  lemma {:induction false} RenderShows(c: MapConfig, g: Grid, px: int, py: int, ch: byte)
    requires forall k :: 0 <= k < |g| && g[k].Some? && Hits(EntityGlyph(c, g[k].value), px, py) ==>
               g[k].value.style == ch
    ensures ShowsOnly(RenderGlyphs(c, g), px, py, ch)
  {
    if g != [] {
      var n := |g| - 1;
      assert forall k :: 0 <= k < n ==> g[..n][k] == g[k];
      RenderShows(c, g[..n], px, py, ch);
      if g[n].Some? {
        ShowsConcat(RenderGlyphs(c, g[..n]), [EntityGlyph(c, g[n].value)], px, py, ch);
      }
    }
  }

  lemma {:induction false} RendersShow(c: MapConfig, grids: seq<Grid>, px: int, py: int, ch: byte)
    requires forall k :: 0 <= k < |grids| ==> ShowsOnly(RenderGlyphs(c, grids[k]), px, py, ch)
    ensures ShowsOnly(Renders(c, grids), px, py, ch)
  {
    if grids != [] {
      var n := |grids| - 1;
      RendersShow(c, grids[..n], px, py, ch);
      ShowsConcat(Renders(c, grids[..n]), RenderGlyphs(c, grids[n]), px, py, ch);
    }
  }

  /** Entities inside the map are drawn inside the map. */
  lemma RenderConfined(c: MapConfig, g: Grid, px: int, py: int)
    requires AllInside(g, c.width, c.height) && !InMap(c, px, py)
    ensures Misses(RenderGlyphs(c, g), px, py)
  {
    RenderHits(c, g, px, py);
  }

  /** Entities strictly inside the border are not drawn on a wall. */
  lemma RenderMissesWalls(c: MapConfig, g: Grid, px: int, py: int)
    requires AllInterior(g, c.width, c.height)
    requires !NoWallAt(c, px - c.x, py - c.y)
    ensures Misses(RenderGlyphs(c, g), px, py)
  {
    RenderHits(c, g, px, py);
  }

  lemma {:induction false} RendersMiss(c: MapConfig, grids: seq<Grid>, px: int, py: int)
    requires forall k :: 0 <= k < |grids| ==> Misses(RenderGlyphs(c, grids[k]), px, py)
    ensures Misses(Renders(c, grids), px, py)
  {
    if grids != [] {
      RendersMiss(c, grids[..|grids| - 1], px, py);
    }
  }

  /** With all entities strictly inside the border, the walls and any number of renders can be drawn in either
      order. */
  lemma WallsAndRendersCommute(cells: seq<byte>, width: nat, height: nat, c: MapConfig, grids: seq<Grid>)
    requires |cells| == width * height
    requires forall k :: 0 <= k < |grids| ==> AllInterior(grids[k], c.width, c.height)
    ensures Paint(cells, width, height, StartUpGlyphs(c) + Renders(c, grids))
         == Paint(cells, width, height, Renders(c, grids) + StartUpGlyphs(c))
  {
    hide Paint, Pixel, LastGlyph, StartUpGlyphs, Renders, RenderGlyphs, AllInterior;
    var walls, foods := StartUpGlyphs(c), Renders(c, grids);
    forall x, y | OnScreen(x, y, width, height)
      ensures Pixel(Paint(cells, width, height, walls + foods), width, height, x, y)
           == Pixel(Paint(cells, width, height, foods + walls), width, height, x, y)
    {
      var before := Pixel(cells, width, height, x, y);
      PaintPixel(cells, width, height, walls + foods, x, y);
      PaintPixel(cells, width, height, foods + walls, x, y);
      LastGlyphConcat(walls, foods, x, y, before);
      LastGlyphConcat(foods, walls, x, y, before);
      OneMisses(c, grids, x, y);
      if Misses(walls, x, y) {
        MissedPixel(walls, x, y, before);
        MissedPixel(walls, x, y, LastGlyph(foods, x, y, before));
      } else {
        MissedPixel(foods, x, y, before);
        MissedPixel(foods, x, y, LastGlyph(walls, x, y, before));
      }
    }
    SamePixels(Paint(cells, width, height, walls + foods), Paint(cells, width, height, foods + walls), width, height);
  }

  lemma OneMisses(c: MapConfig, grids: seq<Grid>, x: int, y: int)
    requires forall k :: 0 <= k < |grids| ==> AllInterior(grids[k], c.width, c.height)
    ensures Misses(StartUpGlyphs(c), x, y) || Misses(Renders(c, grids), x, y)
  {
    hide StartUpGlyphs, Renders, RenderGlyphs, AllInterior, NoWallAt;
    StartUpHits(c, x, y);
    if !NoWallAt(c, x - c.x, y - c.y) {
      forall k | 0 <= k < |grids| ensures Misses(RenderGlyphs(c, grids[k]), x, y) {
        RenderMissesWalls(c, grids[k], x, y);
      }
      RendersMiss(c, grids, x, y);
    }
  }

  /** And every wall character survives all renders. */
  lemma WallsSurvive(c: MapConfig, grids: seq<Grid>, px: int, py: int, before: byte)
    requires forall k :: 0 <= k < |grids| ==> AllInterior(grids[k], c.width, c.height)
    requires !NoWallAt(c, px - c.x, py - c.y)
    ensures LastGlyph(StartUpGlyphs(c) + Renders(c, grids), px, py, before)
         == LastWall(c, WallsOf(c), px - c.x, py - c.y, before)
  {
    hide StartUpGlyphs, Renders, RenderGlyphs, AllInterior, NoWallAt, LastGlyph, LastWall;
    StartUpExact(c, px, py, before);
    forall k | 0 <= k < |grids| ensures Misses(RenderGlyphs(c, grids[k]), px, py) {
      RenderMissesWalls(c, grids[k], px, py);
    }
    RendersMiss(c, grids, px, py);
    LastGlyphConcat(StartUpGlyphs(c), Renders(c, grids), px, py, before);
    MissedPixel(Renders(c, grids), px, py, LastGlyph(StartUpGlyphs(c), px, py, before));
  }
}
