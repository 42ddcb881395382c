/** The map object of common/utilities/Map.cpp: its occupancy index, and how it draws on a screen buffer it may
    share with other maps. */
module Maps {
  import opened Bytes
  import opened Options
  import opened Params
  import opened Grids
  import opened Screens

  const BAR: byte := 124
  const DASH: byte := 45

  // The offset clamp of the constructor, in 16-bit arithmetic.

  function Low16(n: int): uint16 {
    n % 0x1_0000
  }

  function Clamp(offset: uint16, extent: uint16, limit: uint16): uint16 {
    if extent + offset > limit then Low16(limit - extent) else offset
  }

  function Clamped(c: MapConfig, screenWidth: uint16, screenHeight: uint16): MapConfig {
    c.(x := Clamp(c.x, c.width, screenWidth), y := Clamp(c.y, c.height, screenHeight))
  }

  // draw_line: the writes it issues.

  function Min(a: int, b: int): int {
    if a < b then a else b
  }

  /** The starting row once start and end are ordered and a diagonal is flattened. */
  function StartRow(x: int, y: int, w: int, h: int): int {
    if Min(x, w) != w && Min(y, h) != h then h else Min(y, h)
  }

  function RowGlyphs(c: MapConfig, x: int, y: int, count: nat, ch: byte): (gs: seq<Glyph>)
    ensures |gs| == count
  {
    seq(count, r => Glyph(x + r + c.x, y + c.y, ch))
  }

  function ColumnGlyphs(c: MapConfig, x: int, y: int, count: nat, ch: byte): (gs: seq<Glyph>)
    ensures |gs| == count
  {
    seq(count, r => Glyph(x + c.x, y + r + c.y, ch))
  }

  /** How many characters a run from a to b has when b is cut to the map's edge. */
  function Extent(a: int, b: int, size: nat): nat {
    if Min(b, size - 1) < a then 0 else Min(b, size - 1) - a + 1
  }

  function LineGlyphs(c: MapConfig, x: int, y: int, w: int, h: int, ch: byte): seq<Glyph> {
    var x1, y1 := Min(x, w), StartRow(x, y, w, h);
    RowGlyphs(c, x1, y1, Extent(x1, w, c.width), ch) + ColumnGlyphs(c, x1, y1, Extent(y1, h, c.height), ch)
  }

  lemma LineGlyphsAt(c: MapConfig, x: int, y: int, w: int, h: int, ch: byte)
    ensures var all := LineGlyphs(c, x, y, w, h, ch);
            var x1, y1 := Min(x, w), StartRow(x, y, w, h);
            var n := Extent(x1, w, c.width);
            && |all| == n + Extent(y1, h, c.height)
            && (forall k :: 0 <= k < n ==> all[k] == Glyph(x1 + k + c.x, y1 + c.y, ch))
            && (forall k :: n <= k < |all| ==> all[k] == Glyph(x1 + c.x, y1 + (k - n) + c.y, ch))
  {
  }

  // m_draw_walls and render: the writes they issue.

  function WallGlyphs(c: MapConfig, wall: uint16): seq<Glyph> {
    if wall == RIGHT_WALL then LineGlyphs(c, c.width - 1, 0, c.width - 1, c.height - 1, BAR)
    else if wall == LEFT_WALL then LineGlyphs(c, 0, 0, 0, c.height - 1, BAR)
    else if wall == TOP_WALL then LineGlyphs(c, 0, 0, c.width - 1, 0, DASH)
    else if wall == BOTTOM_WALL then LineGlyphs(c, 0, c.height - 1, c.width - 1, c.height - 1, DASH)
    else []
  }

  function StartUpGlyphs(c: MapConfig): seq<Glyph> {
    WallGlyphs(c, c.wallOne) + WallGlyphs(c, c.wallTwo) + WallGlyphs(c, c.wallThree) + WallGlyphs(c, c.wallFour)
  }

  function EntityGlyph(c: MapConfig, e: Entity): Glyph {
    Glyph(e.x + c.x, e.y + c.y, e.style)
  }

  function RenderGlyphs(c: MapConfig, g: Grid): seq<Glyph> {
    if g == [] then []
    else
      var front := RenderGlyphs(c, g[..|g| - 1]);
      match g[|g| - 1]
      case None => front
      case Some(e) => front + [EntityGlyph(c, e)]
  }

  /** A series of renders, each with the index of its moment. */
  function Renders(c: MapConfig, grids: seq<Grid>): seq<Glyph> {
    if grids == [] then [] else Renders(c, grids[..|grids| - 1]) + RenderGlyphs(c, grids[|grids| - 1])
  }

  class Map {
    const config: MapConfig
    const grid: array<Option<Entity>>
    const buffer: ConsoleBuffer

    predicate Valid()
      reads buffer
    {
      && buffer.Valid()
      && grid.Length == config.width * config.height
      && grid as object != buffer.cells
    }

    constructor (config: MapConfig, buffer: ConsoleBuffer, screenWidth: uint16, screenHeight: uint16)
      requires buffer.Valid()
      ensures Valid() && fresh(grid) && this.buffer == buffer
      ensures this.config == Clamped(config, screenWidth, screenHeight)
      ensures forall k :: 0 <= k < grid.Length ==> grid[k] == None
    {
      var clamped := config;
      if config.width + config.x > screenWidth {
        clamped := clamped.(x := Low16(screenWidth - config.width));
      }
      if config.height + config.y > screenHeight {
        clamped := clamped.(y := Low16(screenHeight - config.height));
      }
      this.config, this.buffer := clamped, buffer;
      grid := new Option<Entity>[config.width * config.height](_ => None);
    }

    /** Both loops of draw_line. */
    method DrawLine(x: int, y: int, w: int, h: int, ch: byte)
      requires Valid()
      modifies buffer.cells
      ensures buffer.cells[..]
           == Paint(old(buffer.cells[..]), buffer.width, buffer.height, LineGlyphs(config, x, y, w, h, ch))
    {
      var x1, y1 := x, y;
      if x1 > w { x1 := w; }
      if y1 > h { y1 := h; }
      if x1 != w {
        if y1 != h { y1 := h; }
      }
      var difX, difY := w - x1, h - y1;
      if x1 + difX > config.width - 1 { difX := config.width - 1 - x1; }
      if y1 + difY > config.height - 1 { difY := config.height - 1 - y1; }
      hide Paint, Draw, LineGlyphs;
      ghost var before, all := buffer.cells[..], LineGlyphs(config, x, y, w, h, ch);
      ghost var n := Extent(x1, w, config.width);
      LineGlyphsAt(config, x, y, w, h, ch);
      PaintedNone(before, all);
      var r := 0;
      while r <= difX
        invariant 0 <= r <= n && (difX >= 0 ==> r <= difX + 1) && (difX < 0 ==> r == 0)
        invariant buffer.cells[..] == Painted(before, all, r)
        decreases difX - r
      {
        buffer.WriteCharacter(x1 + r + config.x, y1 + config.y, ch);
        PaintedNext(before, all, r);
        r := r + 1;
      }
      var c := 0;
      while c <= difY
        invariant 0 <= c <= |all| - n && (difY >= 0 ==> c <= difY + 1) && (difY < 0 ==> c == 0)
        invariant buffer.cells[..] == Painted(before, all, n + c)
        decreases difY - c
      {
        buffer.WriteCharacter(x1 + config.x, y1 + c + config.y, ch);
        PaintedNext(before, all, n + c);
        c := c + 1;
      }
      assert all[..|all|] == all;
    }

    ghost function Painted(before: seq<byte>, gs: seq<Glyph>, k: nat): seq<byte>
      requires |before| == buffer.width * buffer.height && k <= |gs|
    {
      Paint(before, buffer.width, buffer.height, gs[..k])
    }

    lemma PaintedNone(before: seq<byte>, gs: seq<Glyph>)
      requires |before| == buffer.width * buffer.height
      ensures Painted(before, gs, 0) == before
    {
      assert gs[..0] == [];
    }

    lemma PaintedNext(before: seq<byte>, gs: seq<Glyph>, k: nat)
      requires |before| == buffer.width * buffer.height && k < |gs|
      ensures Painted(before, gs, k + 1) == Draw(Painted(before, gs, k), buffer.width, buffer.height, gs[k])
    {
      assert gs[..k + 1][..k] == gs[..k];
    }

    method DrawWall(wall: uint16)
      requires Valid()
      modifies buffer.cells
      ensures buffer.cells[..] == Paint(old(buffer.cells[..]), buffer.width, buffer.height, WallGlyphs(config, wall))
    {
      hide LineGlyphs, Paint;
      var width: int, height: int := config.width, config.height;
      if wall == RIGHT_WALL {
        DrawLine(width - 1, 0, width - 1, height - 1, BAR);
      } else if wall == LEFT_WALL {
        DrawLine(0, 0, 0, height - 1, BAR);
      } else if wall == TOP_WALL {
        DrawLine(0, 0, width - 1, 0, DASH);
      } else if wall == BOTTOM_WALL {
        DrawLine(0, height - 1, width - 1, height - 1, DASH);
      } else {
        PaintNothing(buffer.cells[..], buffer.width, buffer.height);
      }
    }

    /** start_up. */
    method StartUp()
      requires Valid()
      modifies buffer.cells
      ensures buffer.cells[..] == Paint(old(buffer.cells[..]), buffer.width, buffer.height, StartUpGlyphs(config))
    {
      hide WallGlyphs, Paint;
      ghost var before, c := buffer.cells[..], config;
      ghost var w, h := buffer.width, buffer.height;
      DrawWall(config.wallOne);
      DrawWall(config.wallTwo);
      PaintConcat(before, w, h, WallGlyphs(c, c.wallOne), WallGlyphs(c, c.wallTwo));
      DrawWall(config.wallThree);
      PaintConcat(before, w, h, WallGlyphs(c, c.wallOne) + WallGlyphs(c, c.wallTwo), WallGlyphs(c, c.wallThree));
      DrawWall(config.wallFour);
      PaintConcat(before, w, h, WallGlyphs(c, c.wallOne) + WallGlyphs(c, c.wallTwo) + WallGlyphs(c, c.wallThree),
                  WallGlyphs(c, c.wallFour));
    }

    method Render()
      requires Valid()
      modifies buffer.cells
      ensures buffer.cells[..]
           == Paint(old(buffer.cells[..]), buffer.width, buffer.height, RenderGlyphs(config, grid[..]))
      ensures grid[..] == old(grid[..])
    {
      hide Paint, Draw, RenderGlyphs;
      ghost var before := buffer.cells[..];
      NothingRendered(config, grid[..], before, buffer.width, buffer.height);
      for i := 0 to grid.Length
        invariant grid[..] == old(grid[..])
        invariant buffer.cells[..] == Paint(before, buffer.width, buffer.height, RenderGlyphs(config, grid[..i]))
      {
        RenderNext(config, grid[..], i, before, buffer.width, buffer.height);
        if grid[i].Some? {
          var e := grid[i].value;
          buffer.WriteCharacter(e.x + config.x, e.y + config.y, e.style);
        }
      }
      assert grid[..grid.Length] == grid[..];
    }

    /** The loop of update_entities and its render; an index outside the map throws and leaves the rest undone. */
    method UpdateEntities(es: seq<Entity>) returns (thrown: bool)
      requires Valid()
      modifies grid, buffer.cells
      ensures var o := Apply(old(grid[..]), Stores(es, config.width));
              grid[..] == o.grid && thrown == o.OutOfRange?
      ensures buffer.cells[..] == if thrown then old(buffer.cells[..])
                                  else Paint(old(buffer.cells[..]), buffer.width, buffer.height,
                                             RenderGlyphs(config, grid[..]))
    {
      hide RenderGlyphs, Paint, NewCell, OldCell;
      ghost var before, width := grid[..], config.width;
      for i := 0 to |es|
        invariant Apply(before, Stores(es[..i], width)) == Updated(grid[..])
        invariant buffer.cells[..] == old(buffer.cells[..])
      {
        ghost var now := grid[..];
        ApplyEntity(before, es, width, i);
        var left := OldIndex(es[i]);
        if !(0 <= left < grid.Length) {
          return true;
        }
        grid[left] := None;
        assert grid[..] == now[left := None];
        var entered := NewIndex(es[i]);
        if !(0 <= entered < grid.Length) {
          return true;
        }
        grid[entered] := Some(es[i]);
        assert grid[..] == now[left := None][entered := Some(es[i])];
      }
      assert es[..|es|] == es;
      thrown := false;
      Render();
    }

    /** A map's thread: start_up, then an update for each round of entities it wakes up to, until one throws. */
    method Run(rounds: seq<seq<Entity>>) returns (done: nat)
      requires Valid()
      modifies grid, buffer.cells
      ensures var grids := IndexHistory(old(grid[..]), rounds, config.width);
              && done == |grids|
              && (done == |rounds| ==> grid[..] == Latest(old(grid[..]), grids))
              && buffer.cells[..] == Paint(old(buffer.cells[..]), buffer.width, buffer.height,
                                           StartUpGlyphs(config) + Renders(config, grids))
    {
      hide Paint, Draw, StartUpGlyphs, RenderGlyphs, IndexHistory, Renders, Latest, Apply, Stores;
      ghost var g, before, width := grid[..], buffer.cells[..], config.width;
      StartUp();
      HistoryStarts(g, rounds, width, config);
      for i := 0 to |rounds|
        invariant |IndexHistory(g, rounds[..i], width)| == i
        invariant grid[..] == Latest(g, IndexHistory(g, rounds[..i], width))
        invariant buffer.cells[..] == Paint(before, buffer.width, buffer.height,
                    StartUpGlyphs(config) + Renders(config, IndexHistory(g, rounds[..i], width)))
      {
        HistoryNext(g, rounds, width, i);
        RendersNext(config, IndexHistory(g, rounds[..i], width), Apply(grid[..], Stores(rounds[i], width)).grid);
        PaintConcat(before, buffer.width, buffer.height,
                    StartUpGlyphs(config) + Renders(config, IndexHistory(g, rounds[..i], width)),
                    RenderGlyphs(config, Apply(grid[..], Stores(rounds[i], width)).grid));
        var thrown := UpdateEntities(rounds[i]);
        if thrown {
          return i;
        }
      }
      assert rounds[..|rounds|] == rounds;
      done := |rounds|;
    }

    function OldIndex(e: Entity): (k: int)
      ensures k == OldCell(e, config.width)
    {
      (e.y - e.veloY) * config.width + (e.x - e.veloX)
    }

    function NewIndex(e: Entity): (k: int)
      ensures k == NewCell(e, config.width)
    {
      e.y * config.width + e.x
    }

    /** check_pos: the occupant, or an out-of-range exception. */
    method CheckPos(x: nat, y: nat) returns (thrown: bool, occupant: Option<Entity>)
      requires Valid()
      ensures thrown <==> y * config.width + x >= config.width * config.height
      ensures !thrown ==> occupant == grid[..][y * config.width + x]
    {
      var k := y * config.width + x;
      thrown, occupant := k >= grid.Length, None;
      if !thrown {
        occupant := grid[k];
      }
    }
  }

  lemma {:induction false} PaintConcat(cells: seq<byte>, width: nat, height: nat, a: seq<Glyph>, b: seq<Glyph>)
    requires |cells| == width * height
    ensures Paint(cells, width, height, a + b) == Paint(Paint(cells, width, height, a), width, height, b)
  {
    if b == [] {
      assert a + b == a;
    } else {
      assert (a + b)[..|a + b| - 1] == a + b[..|b| - 1];
      PaintConcat(cells, width, height, a, b[..|b| - 1]);
    }
  }

  lemma HistoryStarts(g: Grid, rounds: seq<seq<Entity>>, width: nat, c: MapConfig)
    ensures IndexHistory(g, rounds[..0], width) == [] && Latest(g, []) == g
    ensures StartUpGlyphs(c) + Renders(c, []) == StartUpGlyphs(c)
  {
    hide StartUpGlyphs;
    assert Renders(c, []) == [];
  }

  /** One more round, after i that did not throw. */
  lemma HistoryNext(g: Grid, rounds: seq<seq<Entity>>, width: nat, i: nat)
    requires i < |rounds| && |IndexHistory(g, rounds[..i], width)| == i
    ensures var grids := IndexHistory(g, rounds[..i], width);
            match Apply(Latest(g, grids), Stores(rounds[i], width))
            case Updated(h) =>
              IndexHistory(g, rounds[..i + 1], width) == grids + [h] && Latest(g, grids + [h]) == h
            case OutOfRange(_) => IndexHistory(g, rounds, width) == grids
  {
    hide Apply, Stores;
    assert rounds[..i + 1][..i] == rounds[..i];
    if Apply(Latest(g, IndexHistory(g, rounds[..i], width)), Stores(rounds[i], width)).OutOfRange? {
      StaysThrown(g, rounds, width, i + 1);
    }
  }

  lemma {:induction false} StaysThrown(g: Grid, rounds: seq<seq<Entity>>, width: nat, k: nat)
    requires k <= |rounds| && |IndexHistory(g, rounds[..k], width)| < k
    ensures IndexHistory(g, rounds, width) == IndexHistory(g, rounds[..k], width)
  {
    hide Apply, Stores;
    if k == |rounds| {
      assert rounds[..k] == rounds;
    } else {
      assert rounds[..|rounds| - 1][..k] == rounds[..k];
      StaysThrown(g, rounds[..|rounds| - 1], width, k);
    }
  }

  lemma RendersNext(c: MapConfig, grids: seq<Grid>, h: Grid)
    ensures StartUpGlyphs(c) + Renders(c, grids + [h]) == (StartUpGlyphs(c) + Renders(c, grids)) + RenderGlyphs(c, h)
  {
    hide StartUpGlyphs, RenderGlyphs;
    assert (grids + [h])[..|grids|] == grids;
  }

  lemma NothingRendered(c: MapConfig, g: Grid, before: seq<byte>, width: nat, height: nat)
    requires |before| == width * height
    ensures Paint(before, width, height, RenderGlyphs(c, g[..0])) == before
  {
  }

  lemma PaintOne(before: seq<byte>, width: nat, height: nat, gs: seq<Glyph>, last: Glyph)
    requires |before| == width * height
    ensures Paint(before, width, height, gs + [last]) == Draw(Paint(before, width, height, gs), width, height, last)
  {
    hide Draw;
    assert (gs + [last])[..|gs|] == gs;
  }

  lemma GlyphsNext(c: MapConfig, g: Grid, i: nat)
    requires i < |g|
    ensures RenderGlyphs(c, g[..i + 1])
         == RenderGlyphs(c, g[..i]) + match g[i] case None => [] case Some(e) => [EntityGlyph(c, e)]
  {
    assert g[..i + 1][..i] == g[..i];
  }

  /** One more cell of the index adds the write of its occupant, if it has one. */
  lemma RenderNext(c: MapConfig, g: Grid, i: nat, before: seq<byte>, width: nat, height: nat)
    requires |before| == width * height && i < |g|
    ensures var now := Paint(before, width, height, RenderGlyphs(c, g[..i]));
            Paint(before, width, height, RenderGlyphs(c, g[..i + 1]))
            == match g[i]
               case None => now
               case Some(e) => Draw(now, width, height, Glyph(e.x + c.x, e.y + c.y, e.style))
  {
    hide Paint, Draw, RenderGlyphs;
    GlyphsNext(c, g, i);
    match g[i]
    case None => assert RenderGlyphs(c, g[..i]) + [] == RenderGlyphs(c, g[..i]);
    case Some(e) => PaintOne(before, width, height, RenderGlyphs(c, g[..i]), EntityGlyph(c, e));
  }

  lemma PaintNothing(cells: seq<byte>, width: nat, height: nat)
    requires |cells| == width * height
    ensures Paint(cells, width, height, []) == cells
  {
  }

  /** One more entity of the list adds its two assignments; if one throws, so does the whole update. */
  lemma ApplyEntity(g: Grid, es: seq<Entity>, width: nat, i: nat)
    requires i < |es| && Apply(g, Stores(es[..i], width)).Updated?
    ensures var now := Apply(g, Stores(es[..i], width)).grid;
            var left, entered := OldCell(es[i], width), NewCell(es[i], width);
            if !(0 <= left < |g|) then
              Apply(g, Stores(es, width)) == OutOfRange(now)
            else if !(0 <= entered < |g|) then
              Apply(g, Stores(es, width)) == OutOfRange(now[left := None])
            else
              Apply(g, Stores(es[..i + 1], width)) == Updated(now[left := None][entered := Some(es[i])])
  {
    hide NewCell, OldCell, Apply, Stores;
    var clear, fill := Store(OldCell(es[i], width), None), Store(NewCell(es[i], width), Some(es[i]));
    StoresSplit(es, width, i, clear, fill);
    ApplyTwo(g, Stores(es[..i], width), clear, fill, Stores(es, width)[2 * i + 2..]);
  }

  lemma StoresSplit(es: seq<Entity>, width: nat, i: nat, clear: Store, fill: Store)
    requires i < |es|
    requires clear == Store(OldCell(es[i], width), None) && fill == Store(NewCell(es[i], width), Some(es[i]))
    ensures Stores(es[..i + 1], width) == Stores(es[..i], width) + [clear, fill]
    ensures Stores(es, width) == (Stores(es[..i], width) + [clear, fill]) + Stores(es, width)[2 * i + 2..]
  {
    hide NewCell, OldCell, Stores;
    StoresNext(es, width, i);
    StoresPrefix(es, width, i + 1);
  }

  /** Two more assignments, and what follows them. */
  lemma ApplyTwo(g: Grid, before: seq<Store>, a: Store, b: Store, rest: seq<Store>)
    requires Apply(g, before).Updated?
    ensures var now := Apply(g, before).grid;
            var two := before + [a, b];
            if !(0 <= a.cell < |g|) then Apply(g, two + rest) == OutOfRange(now)
            else if !(0 <= b.cell < |g|) then Apply(g, two + rest) == OutOfRange(now[a.cell := a.value])
            else Apply(g, two) == Updated(now[a.cell := a.value][b.cell := b.value])
  {
    hide Apply;
    ApplySnoc(g, before, a);
    ApplySnoc(g, before + [a], b);
    assert (before + [a]) + [b] == before + [a, b];
    if Apply(g, before + [a, b]).OutOfRange? {
      ThrownStays(g, before + [a, b], rest);
    }
  }

  lemma StoresNext(es: seq<Entity>, width: nat, i: nat)
    requires i < |es|
    ensures Stores(es[..i + 1], width)
         == Stores(es[..i], width) + [Store(OldCell(es[i], width), None), Store(NewCell(es[i], width), Some(es[i]))]
  {
    hide NewCell, OldCell;
    assert es[..i + 1][..i] == es[..i];
  }

  lemma ApplySnoc(g: Grid, stores: seq<Store>, last: Store)
    ensures Apply(g, stores + [last])
         == match Apply(g, stores)
            case OutOfRange(h) => OutOfRange(h)
            case Updated(h) => if 0 <= last.cell < |h| then Updated(h[last.cell := last.value]) else OutOfRange(h)
  {
    assert (stores + [last])[..|stores|] == stores;
  }

  lemma {:induction false} StoresPrefix(es: seq<Entity>, width: nat, k: nat)
    requires k <= |es|
    ensures Stores(es, width)[..2 * k] == Stores(es[..k], width)
  {
    hide NewCell, OldCell;
    if k == |es| {
      assert es[..k] == es;
    } else {
      StoresPrefix(es[..|es| - 1], width, k);
      assert es[..|es| - 1][..k] == es[..k];
    }
  }

  lemma {:induction false} ThrownStays(g: Grid, a: seq<Store>, b: seq<Store>)
    requires Apply(g, a).OutOfRange?
    ensures Apply(g, a + b) == Apply(g, a)
  {
    if b == [] {
      assert a + b == a;
    } else {
      assert (a + b)[..|a + b| - 1] == a + b[..|b| - 1];
      ThrownStays(g, a, b[..|b| - 1]);
    }
  }
}
