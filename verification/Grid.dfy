/** The occupancy index of common/utilities/Map.cpp: one cell per position, updated entity by entity. */
module Grids {
  import opened Options
  import opened Params
  import opened Flat

  type Grid = seq<Option<Entity>>

  /** The cell an entity is in, and the one it is said to have left; both as the flattened index of the code. */
  function NewCell(e: Entity, width: nat): int {
    e.y * width + e.x
  }

  function OldCell(e: Entity, width: nat): int {
    (e.y - e.veloY) * width + (e.x - e.veloX)
  }

  /** One assignment to a cell of the index. */
  datatype Store = Store(cell: int, value: Option<Entity>)

  /** The assignments update_entities makes: for each entity, clear the cell it left, then fill the new one. */
  function Stores(es: seq<Entity>, width: nat): (stores: seq<Store>)
    ensures |stores| == 2 * |es|
    ensures forall i :: 0 <= i < |es| ==>
              && stores[2 * i] == Store(OldCell(es[i], width), None)
              && stores[2 * i + 1] == Store(NewCell(es[i], width), Some(es[i]))
  {
    if es == [] then []
    else
      var n := |es| - 1;
      Stores(es[..n], width) + [Store(OldCell(es[n], width), None), Store(NewCell(es[n], width), Some(es[n]))]
  }

  /** The index after some assignments; the first one outside the index throws and ends the series. */
  datatype Outcome = Updated(grid: Grid) | OutOfRange(grid: Grid)

  function Apply(g: Grid, stores: seq<Store>): (o: Outcome)
    ensures |o.grid| == |g|
  {
    if stores == [] then Updated(g)
    else
      var last := stores[|stores| - 1];
      match Apply(g, stores[..|stores| - 1])
      case OutOfRange(h) => OutOfRange(h)
      case Updated(h) => if 0 <= last.cell < |h| then Updated(h[last.cell := last.value]) else OutOfRange(h)
  }

  predicate InRange(stores: seq<Store>, size: nat) {
    forall k :: 0 <= k < |stores| ==> 0 <= stores[k].cell < size
  }

  /** The update runs to its end exactly when no assignment lies outside the index. */
  lemma {:induction false} UpdatedIff(g: Grid, stores: seq<Store>)
    ensures Apply(g, stores).Updated? <==> InRange(stores, |g|)
  {
    if stores != [] {
      var n := |stores| - 1;
      UpdatedIff(g, stores[..n]);
      assert forall k :: 0 <= k < n ==> stores[..n][k] == stores[k];
      if InRange(stores[..n], |g|) && 0 <= stores[n].cell < |g| {
        forall k | 0 <= k < |stores| ensures 0 <= stores[k].cell < |g| {
          assert k < n ==> stores[k] == stores[..n][k];
        }
      }
    }
  }

  predicate Touches(stores: seq<Store>, cell: int) {
    exists k :: 0 <= k < |stores| && stores[k].cell == cell
  }

  /** k is the last assignment to its cell. */
  predicate LastAt(stores: seq<Store>, k: nat) {
    k < |stores| && forall j :: k < j < |stores| ==> stores[j].cell != stores[k].cell
  }

  /** Each cell holds the result of the last assignment to it; a cell that none touches is unchanged. */
  lemma {:induction false} LastStoreWins(g: Grid, stores: seq<Store>, cell: nat)
    requires cell < |g| && Apply(g, stores).Updated?
    ensures !Touches(stores, cell) ==> Apply(g, stores).grid[cell] == g[cell]
    ensures forall k :: 0 <= k < |stores| && stores[k].cell == cell && LastAt(stores, k) ==>
              Apply(g, stores).grid[cell] == stores[k].value
    ensures Touches(stores, cell) ==> exists k :: 0 <= k < |stores| && stores[k].cell == cell && LastAt(stores, k)
  {
    if stores != [] {
      var n := |stores| - 1;
      var front := stores[..n];
      LastStoreWins(g, front, cell);
      if stores[n].cell == cell {
        assert LastAt(stores, n);
      } else {
        TouchesFront(stores, cell);
        forall k | 0 <= k < |stores| && stores[k].cell == cell && LastAt(stores, k)
          ensures Apply(g, stores).grid[cell] == stores[k].value
        {
          assert k < n && front[k] == stores[k];
          LastAtFront(stores, k);
        }
        if Touches(front, cell) {
          var k :| 0 <= k < |front| && front[k].cell == cell && LastAt(front, k);
          LastAtFront(stores, k);
        }
      }
    }
  }

  lemma TouchesFront(stores: seq<Store>, cell: int)
    requires stores != [] && stores[|stores| - 1].cell != cell
    ensures Touches(stores, cell) <==> Touches(stores[..|stores| - 1], cell)
  {
    var front := stores[..|stores| - 1];
    assert forall k :: 0 <= k < |front| ==> front[k] == stores[k];
    if Touches(stores, cell) {
      var k :| 0 <= k < |stores| && stores[k].cell == cell;
      assert front[k] == stores[k];
    }
  }

  lemma LastAtFront(stores: seq<Store>, k: nat)
    requires stores != [] && k < |stores| - 1 && stores[|stores| - 1].cell != stores[k].cell
    ensures LastAt(stores, k) <==> LastAt(stores[..|stores| - 1], k)
  {
    var front := stores[..|stores| - 1];
    assert forall j :: 0 <= j < |front| ==> front[j] == stores[j];
    if LastAt(front, k) {
      forall j | k < j < |stores| ensures stores[j].cell != stores[k].cell {
        assert j < |front| ==> stores[j] == front[j];
      }
    }
  }

  // What the index says about the entities.

  /** Every occupied cell holds an entity of the list that is in that very cell. */
  predicate NoGhosts(g: Grid, es: seq<Entity>, width: nat) {
    forall c :: 0 <= c < |g| && g[c].Some? ==> g[c].value in es && NewCell(g[c].value, width) == c
  }

  /** The cell is the old or the new one of some entity of the list. */
  predicate Visited(es: seq<Entity>, width: nat, cell: int) {
    exists i :: 0 <= i < |es| && (OldCell(es[i], width) == cell || NewCell(es[i], width) == cell)
  }

  lemma VisitedIff(es: seq<Entity>, width: nat, cell: int)
    ensures Visited(es, width, cell) <==> Touches(Stores(es, width), cell)
  {
    hide NewCell, OldCell;
    var stores := Stores(es, width);
    if Visited(es, width, cell) {
      var i :| 0 <= i < |es| && (OldCell(es[i], width) == cell || NewCell(es[i], width) == cell);
      assert stores[2 * i].cell == OldCell(es[i], width) && stores[2 * i + 1].cell == NewCell(es[i], width);
    }
    if Touches(stores, cell) {
      var k :| 0 <= k < |stores| && stores[k].cell == cell;
      assert stores[2 * (k / 2)].cell == OldCell(es[k / 2], width);
      assert stores[2 * (k / 2) + 1].cell == NewCell(es[k / 2], width);
      assert k == 2 * (k / 2) || k == 2 * (k / 2) + 1;
    }
  }

  /** A store either clears a cell or puts an entity of the list where it is. */
  lemma StoreOf(es: seq<Entity>, width: nat, k: nat)
    requires k < 2 * |es|
    ensures var s := Stores(es, width)[k];
            s.value.Some? ==> s.value.value in es && s.cell == NewCell(s.value.value, width)
  {
    hide NewCell, OldCell, Stores;
    var i := k / 2;
    assert Stores(es, width)[2 * i].value == None;
    assert Stores(es, width)[2 * i + 1] == Store(NewCell(es[i], width), Some(es[i]));
    assert k == 2 * i || k == 2 * i + 1;
  }

  /** A touched cell ends up empty or with an entity of the list that is in it. */
  lemma TouchedCell(g: Grid, es: seq<Entity>, width: nat, cell: nat)
    requires cell < |g| && Apply(g, Stores(es, width)).Updated? && Visited(es, width, cell)
    ensures var v := Apply(g, Stores(es, width)).grid[cell];
            v.Some? ==> v.value in es && NewCell(v.value, width) == cell
  {
    hide NewCell, OldCell, Apply, Stores, LastAt, Touches;
    var stores := Stores(es, width);
    VisitedIff(es, width, cell);
    LastStoreWins(g, stores, cell);
    var k :| 0 <= k < |stores| && stores[k].cell == cell && LastAt(stores, k);
    StoreOf(es, width, k);
  }

  /** An update leaves no ghosts exactly when every occupied cell that it does not visit was no ghost before. */
  lemma NoGhostsIff(g: Grid, es: seq<Entity>, width: nat)
    requires Apply(g, Stores(es, width)).Updated?
    ensures NoGhosts(Apply(g, Stores(es, width)).grid, es, width)
       <==> forall c :: 0 <= c < |g| && g[c].Some? && !Visited(es, width, c) ==>
              g[c].value in es && NewCell(g[c].value, width) == c
  {
    hide NewCell, OldCell, Apply, Stores, Visited;
    var h := Apply(g, Stores(es, width)).grid;
    forall c | 0 <= c < |g|
      ensures Visited(es, width, c) && h[c].Some? ==> h[c].value in es && NewCell(h[c].value, width) == c
      ensures !Visited(es, width, c) ==> h[c] == g[c]
    {
      if Visited(es, width, c) {
        TouchedCell(g, es, width, c);
      } else {
        VisitedIff(es, width, c);
        LastStoreWins(g, Stores(es, width), c);
      }
    }
  }

  /** Every entity of the old list has a successor in the new one that says it left the old one's cell. */
  predicate Moved(before: seq<Entity>, after: seq<Entity>, width: nat) {
    forall e :: e in before ==> Visited(after, width, NewCell(e, width))
  }

  /** Updating over and over keeps the index free of ghosts, as long as no entity jumps or vanishes. */
  lemma MovingKeepsNoGhosts(g: Grid, before: seq<Entity>, after: seq<Entity>, width: nat)
    requires NoGhosts(g, before, width) && Moved(before, after, width)
    requires Apply(g, Stores(after, width)).Updated?
    ensures NoGhosts(Apply(g, Stores(after, width)).grid, after, width)
  {
    hide NewCell, OldCell;
    NoGhostsIff(g, after, width);
  }

  /** Entity e is the one before, moved on by its velocity in the 16 bits of a coordinate. */
  predicate MovedOn(before: Entity, e: Entity) {
    e.x == (before.x + e.veloX) % 0x1_0000 && e.y == (before.y + e.veloY) % 0x1_0000
  }

  /** Neither coordinate has wrapped around on the way. */
  predicate NoWrap(before: Entity, e: Entity) {
    before.x + e.veloX < 0x1_0000 && before.y + e.veloY < 0x1_0000
  }

  /** For an entity that has moved on, the cell that is cleared first is the one it was in, exactly if its coordinates
      did not wrap around. */
  lemma ClearsPreviousIff(es: seq<Entity>, width: nat, i: nat, before: Entity)
    requires width > 0 && i < |es| && MovedOn(before, es[i])
    ensures Stores(es, width)[2 * i].value == None
    ensures Stores(es, width)[2 * i].cell == before.y * width + before.x <==> NoWrap(before, es[i])
    ensures Stores(es, width)[2 * i + 1] == Store(es[i].y * width + es[i].x, Some(es[i]))
  {
    var e := es[i];
    var dx, dy := if before.x + e.veloX < 0x1_0000 then 0 else 1, if before.y + e.veloY < 0x1_0000 then 0 else 1;
    assert e.x - e.veloX == before.x - dx * 0x1_0000;
    assert e.y - e.veloY == before.y - dy * 0x1_0000;
    WrappedRow(before.y, dy, width);
    hide Stores;
    assert Stores(es, width)[2 * i].cell == OldCell(e, width);
  }

  lemma WrappedRow(y: nat, d: nat, width: nat)
    requires d <= 1
    ensures (y - d * 0x1_0000) * width == y * width - d * (0x1_0000 * width)
  {
  }

  /** Each entity of the new list is its predecessor in the old one, moved on by its velocity without wrapping. */
  predicate AllMovedOn(before: seq<Entity>, after: seq<Entity>) {
    |before| == |after| && forall i :: 0 <= i < |after| ==> MovedOn(before[i], after[i]) && NoWrap(before[i], after[i])
  }

  lemma MovedOnVisits(before: seq<Entity>, after: seq<Entity>, width: nat)
    requires width > 0 && AllMovedOn(before, after)
    ensures Moved(before, after, width)
  {
    hide NewCell, OldCell, Stores, MovedOn, NoWrap;
    forall e | e in before ensures Visited(after, width, NewCell(e, width)) {
      var i :| 0 <= i < |before| && before[i] == e;
      ClearsPreviousIff(after, width, i, e);
      CellOf(e, width);
      assert Stores(after, width)[2 * i].cell == OldCell(after[i], width);
    }
  }

  lemma CellOf(e: Entity, width: nat)
    ensures NewCell(e, width) == e.y * width + e.x
  {
  }

  /** The law of the index: free of ghosts for a list, and updated with the list in which each entity has moved on by
      its velocity, it is free of ghosts again. */
  lemma VelocityKeepsNoGhosts(g: Grid, before: seq<Entity>, after: seq<Entity>, width: nat)
    requires width > 0 && NoGhosts(g, before, width) && AllMovedOn(before, after)
    requires Apply(g, Stores(after, width)).Updated?
    ensures NoGhosts(Apply(g, Stores(after, width)).grid, after, width)
  {
    hide NoGhosts, AllMovedOn, Apply, Stores, Moved;
    MovedOnVisits(before, after, width);
    MovingKeepsNoGhosts(g, before, after, width);
  }

  /** A later entity enters the cell of entity i, which entity j has left. */
  predicate Refilled(es: seq<Entity>, width: nat, i: nat, j: nat)
    requires i < |es|
  {
    exists k :: j <= k < |es| && NewCell(es[k], width) == NewCell(es[i], width)
  }

  /** No entity is overwritten by a different one, and whenever one is erased its cell is filled again. */
  predicate Undisturbed(es: seq<Entity>, width: nat) {
    forall i, j :: 0 <= i < j < |es| ==>
      && (NewCell(es[i], width) == NewCell(es[j], width) ==> es[i] == es[j])
      && (NewCell(es[i], width) == OldCell(es[j], width) ==> Refilled(es, width, i, j))
  }

  /** check_pos finds every entity at its own position. */
  predicate FindsAll(g: Grid, es: seq<Entity>, width: nat) {
    forall i :: 0 <= i < |es| ==> 0 <= NewCell(es[i], width) < |g| && g[NewCell(es[i], width)] == Some(es[i])
  }

  lemma NewCellInRange(g: Grid, es: seq<Entity>, width: nat, i: nat)
    requires Apply(g, Stores(es, width)).Updated? && i < |es|
    ensures 0 <= NewCell(es[i], width) < |g|
  {
    hide NewCell, OldCell;
    UpdatedIff(g, Stores(es, width));
    assert Stores(es, width)[2 * i + 1].cell == NewCell(es[i], width);
  }

  lemma StoreAt(es: seq<Entity>, width: nat, j: nat)
    requires j < 2 * |es|
    ensures j % 2 == 0 ==> Stores(es, width)[j] == Store(OldCell(es[j / 2], width), None)
    ensures j % 2 == 1 ==> Stores(es, width)[j] == Store(NewCell(es[j / 2], width), Some(es[j / 2]))
  {
    assert j == 2 * (j / 2) + j % 2;
  }

  /** The last assignment to the cell of an undisturbed entity puts an equal one there. */
  lemma FoundIfUndisturbed(g: Grid, es: seq<Entity>, width: nat, i: nat)
    requires Apply(g, Stores(es, width)).Updated? && i < |es| && Undisturbed(es, width)
    ensures 0 <= NewCell(es[i], width) < |g|
    ensures Apply(g, Stores(es, width)).grid[NewCell(es[i], width)] == Some(es[i])
  {
    hide NewCell, OldCell, Apply, Stores;
    var stores, cell := Stores(es, width), NewCell(es[i], width);
    NewCellInRange(g, es, width, i);
    assert stores[2 * i + 1] == Store(cell, Some(es[i]));
    LastStoreWins(g, stores, cell);
    assert Touches(stores, cell);
    var k :| 0 <= k < |stores| && stores[k].cell == cell && LastAt(stores, k);
    assert k >= 2 * i + 1;
    StoreAt(es, width, k);
    LastStoreFills(es, width, i, k);
  }

  lemma LastStoreFills(es: seq<Entity>, width: nat, i: nat, k: nat)
    requires i < |es| && Undisturbed(es, width) && 2 * i + 1 <= k < 2 * |es|
    requires LastAt(Stores(es, width), k) && Stores(es, width)[k].cell == NewCell(es[i], width)
    ensures Stores(es, width)[k].value == Some(es[i])
  {
    hide NewCell, OldCell, Stores;
    StoreAt(es, width, k);
    var j := k / 2;
    assert k == 2 * j || k == 2 * j + 1;
  }

  /** An entity whose cell a later one clears is lost, unless a later one fills that cell again. */
  lemma LostIfCleared(g: Grid, es: seq<Entity>, width: nat, i: nat, j: nat)
    requires Apply(g, Stores(es, width)).Updated? && i < j < |es|
    requires NewCell(es[i], width) == OldCell(es[j], width)
    requires FindsAll(Apply(g, Stores(es, width)).grid, es, width)
    ensures Refilled(es, width, i, j)
  {
    hide NewCell, OldCell, Apply, Stores;
    var stores, cell := Stores(es, width), NewCell(es[i], width);
    NewCellInRange(g, es, width, i);
    LastStoreWins(g, stores, cell);
    assert stores[2 * j] == Store(cell, None);
    assert Touches(stores, cell);
    var k :| 0 <= k < |stores| && stores[k].cell == cell && LastAt(stores, k);
    assert k >= 2 * j;
    StoreAt(es, width, k);
    assert Apply(g, stores).grid[cell] == Some(es[i]);
    assert j <= k / 2 < |es|;
  }

  /** After an update check_pos finds every entity exactly when none is disturbed by a later one. */
  lemma FindsAllIff(g: Grid, es: seq<Entity>, width: nat)
    requires Apply(g, Stores(es, width)).Updated?
    ensures FindsAll(Apply(g, Stores(es, width)).grid, es, width) <==> Undisturbed(es, width)
  {
    hide NewCell, OldCell, Apply, Stores, Refilled;
    var h := Apply(g, Stores(es, width)).grid;
    if Undisturbed(es, width) {
      forall i | 0 <= i < |es|
        ensures 0 <= NewCell(es[i], width) < |h| && h[NewCell(es[i], width)] == Some(es[i])
      {
        FoundIfUndisturbed(g, es, width, i);
      }
    }
    if FindsAll(h, es, width) {
      forall i, j | 0 <= i < j < |es|
        ensures NewCell(es[i], width) == NewCell(es[j], width) ==> es[i] == es[j]
        ensures NewCell(es[i], width) == OldCell(es[j], width) ==> Refilled(es, width, i, j)
      {
        if NewCell(es[i], width) == OldCell(es[j], width) {
          LostIfCleared(g, es, width, i, j);
        }
      }
    }
  }

  function EmptyGrid(size: nat): (g: Grid)
    ensures |g| == size && forall k :: 0 <= k < size ==> g[k] == None
  {
    seq(size, _ => None)
  }

  // A series of updates, as a map's thread makes them.

  function Latest(g: Grid, grids: seq<Grid>): Grid {
    if grids == [] then g else grids[|grids| - 1]
  }

  /** The index after each update of a series; the first one that throws ends the series. */
  function IndexHistory(g: Grid, rounds: seq<seq<Entity>>, width: nat): (grids: seq<Grid>)
    ensures |grids| <= |rounds|
    ensures forall k :: 0 <= k < |grids| ==> |grids[k]| == |g|
  {
    if rounds == [] then []
    else
      var n := |rounds| - 1;
      var grids := IndexHistory(g, rounds[..n], width);
      if |grids| < n then grids
      else
        match Apply(Latest(g, grids), Stores(rounds[n], width))
        case Updated(h) => grids + [h]
        case OutOfRange(_) => grids
  }

  /** The entity was in the index at the start, or is in one of the lists. */
  predicate Known(e: Entity, g: Grid, rounds: seq<seq<Entity>>) {
    || (exists c :: 0 <= c < |g| && g[c] == Some(e))
    || (exists k :: 0 <= k < |rounds| && e in rounds[k])
  }

  predicate OccupantsKnown(h: Grid, g: Grid, rounds: seq<seq<Entity>>) {
    forall c :: 0 <= c < |h| && h[c].Some? ==> Known(h[c].value, g, rounds)
  }

  /** An update only brings in entities of its list. */
  lemma UpdateBrings(g: Grid, es: seq<Entity>, width: nat, cell: nat)
    requires cell < |g| && Apply(g, Stores(es, width)).Updated?
    ensures var v := Apply(g, Stores(es, width)).grid[cell]; v.Some? ==> v == g[cell] || v.value in es
  {
    hide NewCell, OldCell, Apply, Stores, Visited;
    if Visited(es, width, cell) {
      TouchedCell(g, es, width, cell);
    } else {
      VisitedIff(es, width, cell);
      LastStoreWins(g, Stores(es, width), cell);
    }
  }

  lemma KnownGrows(e: Entity, g: Grid, rounds: seq<seq<Entity>>, n: nat)
    requires n <= |rounds| && Known(e, g, rounds[..n])
    ensures Known(e, g, rounds)
  {
    if k :| 0 <= k < n && e in rounds[..n][k] {
      assert e in rounds[k];
    }
  }

  /** Through any series of updates the index only ever holds entities it held before or was given. */
  lemma {:induction false} HistoryBrings(g: Grid, rounds: seq<seq<Entity>>, width: nat)
    ensures forall k :: 0 <= k < |IndexHistory(g, rounds, width)| ==>
              OccupantsKnown(IndexHistory(g, rounds, width)[k], g, rounds)
  {
    if rounds != [] {
      hide Apply, Stores, Known;
      var n := |rounds| - 1;
      HistoryBrings(g, rounds[..n], width);
      var front, all := IndexHistory(g, rounds[..n], width), IndexHistory(g, rounds, width);
      forall k | 0 <= k < |all| ensures OccupantsKnown(all[k], g, rounds) {
        forall c | 0 <= c < |all[k]| && all[k][c].Some? ensures Known(all[k][c].value, g, rounds) {
          if k < |front| {
            KnownGrows(all[k][c].value, g, rounds, n);
          } else {
            UpdateBrings(Latest(g, front), rounds[n], width, c);
            NewKnown(g, rounds, front, all[k][c].value, c);
          }
        }
      }
    }
  }

  lemma NewKnown(g: Grid, rounds: seq<seq<Entity>>, front: seq<Grid>, e: Entity, c: nat)
    requires rounds != []
    requires forall k :: 0 <= k < |front| ==> OccupantsKnown(front[k], g, rounds[..|rounds| - 1])
    requires (c < |Latest(g, front)| && Latest(g, front)[c] == Some(e)) || e in rounds[|rounds| - 1]
    ensures Known(e, g, rounds)
  {
    if c < |Latest(g, front)| && Latest(g, front)[c] == Some(e) {
      if front == [] {
        assert g[c] == Some(e);
      } else {
        KnownGrows(e, g, rounds, |rounds| - 1);
      }
    }
  }

  // Positions: the flattened index tells positions apart only inside the map.

  predicate InsideMap(e: Entity, width: nat, height: nat) {
    e.x < width && e.y < height
  }

  lemma CellIsPosition(e: Entity, width: nat, height: nat, x: nat, y: nat)
    requires InsideMap(e, width, height) && x < width
    ensures 0 <= NewCell(e, width) < width * height
    ensures NewCell(e, width) == y * width + x <==> e.x == x && e.y == y
  {
    IndexInRange(e.x, e.y, width, height);
    SamePosition(e.x, e.y, x, y, width);
  }

  /** Of all positions within the map's columns, an entity's cell is that of its column modulo the width, as many rows
      further down as the width goes into its column. */
  lemma CellIsWrapped(e: Entity, width: nat, x: nat, y: nat)
    requires x < width
    ensures NewCell(e, width) == y * width + x <==> x == e.x % width && y == e.y + e.x / width
  {
    var column, rows: nat := e.x % width, e.x / width;
    assert e.x == rows * width + column;
    assert (e.y + rows) * width == e.y * width + rows * width;
    SamePosition(column, e.y + rows, x, y, width);
  }

  /** An entity has a cell in the index exactly when its wrapped row is one of the map's. */
  lemma CellInIndexIff(e: Entity, width: nat, height: nat)
    requires width > 0
    ensures 0 <= NewCell(e, width) < width * height <==> e.y + e.x / width < height
  {
    var column, row: nat := e.x % width, e.y + e.x / width;
    CellIsWrapped(e, width, column, row);
    if row < height {
      IndexInRange(column, row, width, height);
    } else {
      MulLe(height, row, width);
    }
  }

  /** Whom check_pos reports at a position of the map, in an index free of ghosts: someone of the list whose wrapped
      position it is, and who is really there exactly if not beyond the right edge. */
  lemma ReportedIsThereIff(g: Grid, es: seq<Entity>, width: nat, height: nat, x: nat, y: nat)
    requires |g| == width * height && NoGhosts(g, es, width)
    requires x < width && y < height
    ensures 0 <= y * width + x < |g|
    ensures var v := g[y * width + x];
            v.Some? ==>
              && v.value in es && x == v.value.x % width && y == v.value.y + v.value.x / width
              && ((v.value.x == x && v.value.y == y) <==> v.value.x < width)
  {
    hide NewCell;
    IndexInRange(x, y, width, height);
    var v := g[y * width + x];
    if v.Some? {
      CellIsWrapped(v.value, width, x, y);
      WrappedIsOwnIff(v.value, width);
    }
  }

  lemma WrappedIsOwnIff(e: Entity, width: nat)
    requires width > 0
    ensures e.x == e.x % width && e.y == e.y + e.x / width <==> e.x < width
  {
  }
}
