/** The shared screen buffer, TSConsoleBuffer of common/utilities/WinConsole.cpp, and what series of writes to it
    leave behind. Every write happens under the buffer's lock, so it is one atomic step. */
module Screens {
  import opened Bytes
  import opened Flat

  const BLANK: byte := 32

  /** One call of write_character with its coordinates. */
  datatype Glyph = Glyph(x: int, y: int, ch: byte)

  predicate OnScreen(x: int, y: int, width: nat, height: nat) {
    0 <= x < width && 0 <= y < height
  }

  /** Writes outside the buffer are dropped; a negative coordinate becomes a huge size_t and is outside too. */
  function Draw(cells: seq<byte>, width: nat, height: nat, g: Glyph): (r: seq<byte>)
    requires |cells| == width * height
    ensures |r| == |cells|
  {
    if OnScreen(g.x, g.y, width, height) then
      IndexInRange(g.x, g.y, width, height);
      cells[g.y * width + g.x := g.ch]
    else cells
  }

  function Paint(cells: seq<byte>, width: nat, height: nat, gs: seq<Glyph>): (r: seq<byte>)
    requires |cells| == width * height
    ensures |r| == |cells|
  {
    if gs == [] then cells
    else Draw(Paint(cells, width, height, gs[..|gs| - 1]), width, height, gs[|gs| - 1])
  }

  function Pixel(cells: seq<byte>, width: nat, height: nat, x: int, y: int): byte
    requires |cells| == width * height && OnScreen(x, y, width, height)
  {
    IndexInRange(x, y, width, height);
    cells[y * width + x]
  }

  predicate Hits(g: Glyph, x: int, y: int) {
    g.x == x && g.y == y
  }

  /** What a series of writes leaves at one position that held before. */
  function LastGlyph(gs: seq<Glyph>, x: int, y: int, before: byte): byte {
    if gs == [] then before
    else if Hits(gs[|gs| - 1], x, y) then gs[|gs| - 1].ch
    else LastGlyph(gs[..|gs| - 1], x, y, before)
  }

  class ConsoleBuffer {
    const width: nat
    const height: nat
    const cells: array<byte>

    predicate Valid() {
      cells.Length == width * height
    }

    constructor (width: nat, height: nat)
      ensures Valid() && fresh(cells) && this.width == width && this.height == height
      ensures forall k :: 0 <= k < cells.Length ==> cells[k] == ' ' as int
    {
      this.width, this.height := width, height;
      var buffer := new byte[width * height];
      var i := buffer.Length;
      while i > 0
        invariant 0 <= i <= buffer.Length
        invariant forall k :: i <= k < buffer.Length ==> buffer[k] == BLANK
      {
        i := i - 1;
        buffer[i] := BLANK;
      }
      cells := buffer;
    }

    /** write_character with coordinates. */
    method WriteCharacter(x: int, y: int, ch: byte)
      requires Valid()
      modifies cells
      ensures cells[..] == Draw(old(cells[..]), width, height, Glyph(x, y, ch))
    {
      if 0 <= x && x < width && 0 <= y && y < height {
        IndexInRange(x, y, width, height);
        cells[y * width + x] := ch;
      }
    }

    /** write_character with a flat position; past the end it is dropped. */
    method WriteAt(position: nat, ch: byte)
      requires Valid()
      modifies cells
      ensures cells[..] == if position < width * height then old(cells[..])[position := ch] else old(cells[..])
    {
      if position < width * height {
        cells[position] := ch;
      }
    }
  }

  /** One write, cell by cell of the flat buffer. */
  lemma DrawExact(cells: seq<byte>, width: nat, height: nat, x: int, y: int, ch: byte, k: nat)
    requires |cells| == width * height && k < |cells|
    ensures Draw(cells, width, height, Glyph(x, y, ch))[k]
         == if 0 <= x < width && 0 <= y < height && k == y * width + x then ch else cells[k]
  {
  }

  /** One write changes one position. */
  lemma DrawPixel(cells: seq<byte>, width: nat, height: nat, g: Glyph, x: int, y: int)
    requires |cells| == width * height && OnScreen(x, y, width, height)
    ensures Pixel(Draw(cells, width, height, g), width, height, x, y)
         == if Hits(g, x, y) then g.ch else Pixel(cells, width, height, x, y)
  {
    IndexInRange(x, y, width, height);
    if OnScreen(g.x, g.y, width, height) {
      IndexInRange(g.x, g.y, width, height);
      SamePosition(x, y, g.x, g.y, width);
    }
  }

  /** Each position shows the last character written to it. */
  lemma {:induction false} PaintPixel(cells: seq<byte>, width: nat, height: nat, gs: seq<Glyph>, x: int, y: int)
    requires |cells| == width * height && OnScreen(x, y, width, height)
    ensures Pixel(Paint(cells, width, height, gs), width, height, x, y)
         == LastGlyph(gs, x, y, Pixel(cells, width, height, x, y))
  {
    hide Pixel, Draw;
    if gs != [] {
      var front := gs[..|gs| - 1];
      PaintPixel(cells, width, height, front, x, y);
      DrawPixel(Paint(cells, width, height, front), width, height, gs[|gs| - 1], x, y);
    }
  }

  /** Buffers that show the same at every position are the same. */
  lemma SamePixels(a: seq<byte>, b: seq<byte>, width: nat, height: nat)
    requires |a| == width * height == |b|
    requires forall x, y :: OnScreen(x, y, width, height) ==>
               Pixel(a, width, height, x, y) == Pixel(b, width, height, x, y)
    ensures a == b
  {
    forall k | 0 <= k < |a| ensures a[k] == b[k] {
      SplitIndex(k, width, height);
      var x, y := k % width, k / width;
      assert Pixel(a, width, height, x, y) == Pixel(b, width, height, x, y);
    }
  }

  lemma SplitIndex(k: nat, width: nat, height: nat)
    requires k < width * height
    ensures width > 0 && OnScreen(k % width, k / width, width, height)
    ensures (k / width) * width + k % width == k
  {
    if k / width >= height {
      MulLe(height, k / width, width);
    }
  }

  lemma {:induction false} LastGlyphConcat(a: seq<Glyph>, b: seq<Glyph>, x: int, y: int, before: byte)
    ensures LastGlyph(a + b, x, y, before) == LastGlyph(b, x, y, LastGlyph(a, x, y, before))
  {
    if b == [] {
      assert a + b == a;
    } else {
      assert (a + b)[..|a + b| - 1] == a + b[..|b| - 1];
      LastGlyphConcat(a, b[..|b| - 1], x, y, before);
    }
  }

  /** No write of the series goes to this position. */
  predicate Misses(gs: seq<Glyph>, x: int, y: int) {
    forall k :: 0 <= k < |gs| ==> !Hits(gs[k], x, y)
  }

  lemma {:induction false} MissedPixel(gs: seq<Glyph>, x: int, y: int, before: byte)
    requires Misses(gs, x, y)
    ensures LastGlyph(gs, x, y, before) == before
  {
    if gs != [] {
      MissedPixel(gs[..|gs| - 1], x, y, before);
    }
  }

  // Several threads writing to one buffer.

  /** No position is written by two different threads. */
  ghost predicate Separate(programs: seq<seq<Glyph>>) {
    forall i, j, x: int, y: int :: 0 <= i < |programs| && 0 <= j < |programs| && i != j ==>
      Misses(programs[i], x, y) || Misses(programs[j], x, y)
  }

  /** Thread i may take its next step after the threads did the given numbers of steps. */
  predicate CanStep(programs: seq<seq<Glyph>>, done: seq<nat>, i: nat) {
    |done| == |programs| && i < |programs| && done[i] < |programs[i]|
  }

  /** How far each thread is after a schedule, which names the thread of each step. */
  function Progress(programs: seq<seq<Glyph>>, schedule: seq<nat>): (done: seq<nat>)
    ensures |done| == |programs|
    ensures forall i :: 0 <= i < |programs| ==> done[i] <= |programs[i]|
  {
    if schedule == [] then seq(|programs|, _ => 0)
    else
      var done := Progress(programs, schedule[..|schedule| - 1]);
      var i := schedule[|schedule| - 1];
      if CanStep(programs, done, i) then done[i := done[i] + 1] else done
  }

  /** The series of writes in the order of the schedule; a thread that has finished takes no step. */
  function Interleaved(programs: seq<seq<Glyph>>, schedule: seq<nat>): seq<Glyph> {
    if schedule == [] then []
    else
      var before := schedule[..|schedule| - 1];
      var i := schedule[|schedule| - 1];
      var done := Progress(programs, before);
      var gs := Interleaved(programs, before);
      if CanStep(programs, done, i) then gs + [programs[i][done[i]]] else gs
  }

  /** One thread after another, each as far as given. */
  function InTurn(programs: seq<seq<Glyph>>, done: seq<nat>): seq<Glyph>
    requires |done| == |programs| && forall i :: 0 <= i < |programs| ==> done[i] <= |programs[i]|
  {
    if programs == [] then []
    else
      var n := |programs| - 1;
      InTurn(programs[..n], done[..n]) + programs[n][..done[n]]
  }

  /** At a position only thread owner writes to, an interleaving leaves what that thread's own steps leave. */
  lemma {:induction false} InterleavedPixel(programs: seq<seq<Glyph>>, schedule: seq<nat>, owner: nat,
                                           x: int, y: int, before: byte)
    requires owner < |programs|
    requires forall i :: 0 <= i < |programs| && i != owner ==> Misses(programs[i], x, y)
    ensures LastGlyph(Interleaved(programs, schedule), x, y, before)
         == LastGlyph(programs[owner][..Progress(programs, schedule)[owner]], x, y, before)
  {
    if schedule == [] {
      assert programs[owner][..0] == [];
    } else {
      var earlier, i := schedule[..|schedule| - 1], schedule[|schedule| - 1];
      var done := Progress(programs, earlier);
      InterleavedPixel(programs, earlier, owner, x, y, before);
      if CanStep(programs, done, i) {
        var g := programs[i][done[i]];
        LastGlyphConcat(Interleaved(programs, earlier), [g], x, y, before);
        assert [g][..0] == [];
        if i == owner {
          assert programs[i][..done[i] + 1] == programs[i][..done[i]] + [g];
          LastGlyphConcat(programs[i][..done[i]], [g], x, y, before);
        } else {
          assert !Hits(g, x, y);
        }
      }
    }
  }

  lemma {:induction false} InTurnPixel(programs: seq<seq<Glyph>>, done: seq<nat>, owner: nat,
                                      x: int, y: int, before: byte)
    requires |done| == |programs| && forall i :: 0 <= i < |programs| ==> done[i] <= |programs[i]|
    requires forall i :: 0 <= i < |programs| && i != owner ==> Misses(programs[i], x, y)
    ensures LastGlyph(InTurn(programs, done), x, y, before)
         == if owner < |programs| then LastGlyph(programs[owner][..done[owner]], x, y, before) else before
  {
    if programs != [] {
      var n := |programs| - 1;
      var last := programs[n][..done[n]];
      InTurnPixel(programs[..n], done[..n], owner, x, y, before);
      LastGlyphConcat(InTurn(programs[..n], done[..n]), last, x, y, before);
      if owner != n {
        assert Misses(last, x, y);
        MissedPixel(last, x, y, LastGlyph(InTurn(programs[..n], done[..n]), x, y, before));
      }
    }
  }

  /** Whatever the series draws at this position is this character. */
  predicate ShowsOnly(gs: seq<Glyph>, x: int, y: int, ch: byte) {
    forall k :: 0 <= k < |gs| && Hits(gs[k], x, y) ==> gs[k].ch == ch
  }

  lemma {:induction false} ShownPixel(gs: seq<Glyph>, x: int, y: int, ch: byte, before: byte)
    requires ShowsOnly(gs, x, y, ch)
    ensures LastGlyph(gs, x, y, before) == if Misses(gs, x, y) then before else ch
  {
    if gs != [] {
      var n := |gs| - 1;
      var front := gs[..n];
      assert forall k :: 0 <= k < n ==> front[k] == gs[k];
      ShownPixel(front, x, y, ch, before);
      if !Hits(gs[n], x, y) && Misses(front, x, y) {
        forall k | 0 <= k < |gs| ensures !Hits(gs[k], x, y) {
          assert k < n ==> front[k] == gs[k];
        }
      }
    }
  }

  lemma MissesConcat(a: seq<Glyph>, b: seq<Glyph>, x: int, y: int)
    ensures Misses(a + b, x, y) <==> Misses(a, x, y) && Misses(b, x, y)
  {
    assert forall k :: 0 <= k < |a| ==> (a + b)[k] == a[k];
    assert forall k :: 0 <= k < |b| ==> (a + b)[|a| + k] == b[k];
  }

  lemma ShowsConcat(a: seq<Glyph>, b: seq<Glyph>, x: int, y: int, ch: byte)
    ensures ShowsOnly(a + b, x, y, ch) <==> ShowsOnly(a, x, y, ch) && ShowsOnly(b, x, y, ch)
  {
    assert forall k :: 0 <= k < |a| ==> (a + b)[k] == a[k];
    assert forall k :: 0 <= k < |b| ==> (a + b)[|a| + k] == b[k];
  }

  /** No thread has drawn at the position so far. */
  predicate NoneHit(programs: seq<seq<Glyph>>, done: seq<nat>, x: int, y: int)
    requires |done| == |programs| && forall i :: 0 <= i < |programs| ==> done[i] <= |programs[i]|
  {
    forall i :: 0 <= i < |programs| ==> Misses(programs[i][..done[i]], x, y)
  }

  predicate AllShow(programs: seq<seq<Glyph>>, x: int, y: int, ch: byte) {
    forall i :: 0 <= i < |programs| ==> ShowsOnly(programs[i], x, y, ch)
  }

  /** An interleaving draws at a position exactly when one of the threads has, and only what they draw. */
  lemma {:induction false} InterleavedShows(programs: seq<seq<Glyph>>, schedule: seq<nat>, x: int, y: int, ch: byte)
    requires AllShow(programs, x, y, ch)
    ensures ShowsOnly(Interleaved(programs, schedule), x, y, ch)
    ensures Misses(Interleaved(programs, schedule), x, y)
       <==> NoneHit(programs, Progress(programs, schedule), x, y)
  {
    if schedule != [] {
      var earlier, i := schedule[..|schedule| - 1], schedule[|schedule| - 1];
      var done := Progress(programs, earlier);
      InterleavedShows(programs, earlier, x, y, ch);
      if CanStep(programs, done, i) {
        var g := programs[i][done[i]];
        MissesConcat(Interleaved(programs, earlier), [g], x, y);
        ShowsConcat(Interleaved(programs, earlier), [g], x, y, ch);
        assert programs[i][..done[i] + 1] == programs[i][..done[i]] + [g];
        MissesConcat(programs[i][..done[i]], [g], x, y);
        OneMoreHit(programs, done, i, x, y);
      }
    }
  }

  lemma OneMoreHit(programs: seq<seq<Glyph>>, done: seq<nat>, i: nat, x: int, y: int)
    requires |done| == |programs| && forall j :: 0 <= j < |programs| ==> done[j] <= |programs[j]|
    requires CanStep(programs, done, i)
    requires Misses(programs[i][..done[i] + 1], x, y)
        <==> Misses(programs[i][..done[i]], x, y) && Misses([programs[i][done[i]]], x, y)
    ensures NoneHit(programs, done[i := done[i] + 1], x, y)
       <==> NoneHit(programs, done, x, y) && Misses([programs[i][done[i]]], x, y)
  {
    hide Misses;
    var next := done[i := done[i] + 1];
    assert forall j :: 0 <= j < |programs| && j != i ==> next[j] == done[j];
    if NoneHit(programs, next, x, y) {
      assert Misses(programs[i][..next[i]], x, y);
      forall j | 0 <= j < |programs| ensures Misses(programs[j][..done[j]], x, y) {
        assert j != i ==> Misses(programs[j][..next[j]], x, y);
      }
    }
    if NoneHit(programs, done, x, y) && Misses([programs[i][done[i]]], x, y) {
      forall j | 0 <= j < |programs| ensures Misses(programs[j][..next[j]], x, y) {
        assert Misses(programs[j][..done[j]], x, y);
      }
    }
  }

  lemma {:induction false} InTurnShows(programs: seq<seq<Glyph>>, done: seq<nat>, x: int, y: int, ch: byte)
    requires |done| == |programs| && forall i :: 0 <= i < |programs| ==> done[i] <= |programs[i]|
    requires AllShow(programs, x, y, ch)
    ensures ShowsOnly(InTurn(programs, done), x, y, ch)
    ensures Misses(InTurn(programs, done), x, y) <==> NoneHit(programs, done, x, y)
  {
    if programs != [] {
      var n := |programs| - 1;
      var last := programs[n][..done[n]];
      InTurnShows(programs[..n], done[..n], x, y, ch);
      MissesConcat(InTurn(programs[..n], done[..n]), last, x, y);
      ShowsConcat(InTurn(programs[..n], done[..n]), last, x, y, ch);
      assert ShowsOnly(programs[n], x, y, ch);
      LastNoneHit(programs, done, x, y);
    }
  }

  lemma LastNoneHit(programs: seq<seq<Glyph>>, done: seq<nat>, x: int, y: int)
    requires |done| == |programs| && forall i :: 0 <= i < |programs| ==> done[i] <= |programs[i]|
    requires programs != []
    ensures var n := |programs| - 1;
            NoneHit(programs, done, x, y)
            <==> NoneHit(programs[..n], done[..n], x, y) && Misses(programs[n][..done[n]], x, y)
  {
    hide Misses;
    var n := |programs| - 1;
    var p, d := programs[..n], done[..n];
    assert forall i :: 0 <= i < n ==> p[i] == programs[i] && d[i] == done[i];
    if NoneHit(programs, done, x, y) {
      forall i | 0 <= i < n ensures Misses(p[i][..d[i]], x, y) {
        assert Misses(programs[i][..done[i]], x, y);
      }
    }
    if NoneHit(p, d, x, y) && Misses(programs[n][..done[n]], x, y) {
      forall i | 0 <= i < |programs| ensures Misses(programs[i][..done[i]], x, y) {
        assert i < n ==> Misses(p[i][..d[i]], x, y);
      }
    }
  }

  /** At this position the order of the threads cannot show: only one of them draws there, or all draw the same. */
  ghost predicate Harmless(programs: seq<seq<Glyph>>, x: int, y: int) {
    || (exists owner: nat :: owner < |programs| && OnlyOwner(programs, owner, x, y))
    || (exists ch: byte :: AllShow(programs, x, y, ch))
  }

  predicate OnlyOwner(programs: seq<seq<Glyph>>, owner: nat, x: int, y: int) {
    forall i :: 0 <= i < |programs| && i != owner ==> Misses(programs[i], x, y)
  }

  /** At every moment of this schedule's run the buffer is the one that running the threads one after another, each as
      far as it has come, leaves. */
  ghost predicate Agrees(cells: seq<byte>, width: nat, height: nat, programs: seq<seq<Glyph>>, schedule: seq<nat>)
    requires |cells| == width * height
  {
    Paint(cells, width, height, Interleaved(programs, schedule))
    == Paint(cells, width, height, InTurn(programs, Progress(programs, schedule)))
  }

  /** Confluence: as long as every position of the screen is harmless, the interleaving does not matter. */
  lemma Confluence(cells: seq<byte>, width: nat, height: nat, programs: seq<seq<Glyph>>, schedule: seq<nat>)
    requires |cells| == width * height
    requires forall x, y :: OnScreen(x, y, width, height) ==> Harmless(programs, x, y)
    ensures Agrees(cells, width, height, programs, schedule)
  {
    hide Paint, Pixel, InTurn, LastGlyph, OnlyOwner, AllShow, Interleaved;
    var done := Progress(programs, schedule);
    var a := Paint(cells, width, height, Interleaved(programs, schedule));
    var b := Paint(cells, width, height, InTurn(programs, done));
    forall x, y | OnScreen(x, y, width, height)
      ensures Pixel(a, width, height, x, y) == Pixel(b, width, height, x, y)
    {
      PaintPixel(cells, width, height, Interleaved(programs, schedule), x, y);
      PaintPixel(cells, width, height, InTurn(programs, done), x, y);
      HarmlessPixel(programs, schedule, x, y, Pixel(cells, width, height, x, y));
    }
    SamePixels(a, b, width, height);
  }

  lemma HarmlessPixel(programs: seq<seq<Glyph>>, schedule: seq<nat>, x: int, y: int, before: byte)
    requires Harmless(programs, x, y)
    ensures LastGlyph(Interleaved(programs, schedule), x, y, before)
         == LastGlyph(InTurn(programs, Progress(programs, schedule)), x, y, before)
  {
    hide InTurn, LastGlyph, Interleaved, AllShow, Misses, ShowsOnly;
    var done := Progress(programs, schedule);
    if owner: nat :| owner < |programs| && OnlyOwner(programs, owner, x, y) {
      InterleavedPixel(programs, schedule, owner, x, y, before);
      InTurnPixel(programs, done, owner, x, y, before);
    } else {
      var ch: byte :| AllShow(programs, x, y, ch);
      InterleavedShows(programs, schedule, x, y, ch);
      InTurnShows(programs, done, x, y, ch);
      ShownPixel(Interleaved(programs, schedule), x, y, ch, before);
      ShownPixel(InTurn(programs, done), x, y, ch, before);
    }
  }

  lemma SeparateIsHarmless(programs: seq<seq<Glyph>>, x: int, y: int)
    requires Separate(programs)
    ensures Harmless(programs, x, y)
  {
    hide Misses;
    if i :| 0 <= i < |programs| && !Misses(programs[i], x, y) {
      assert OnlyOwner(programs, i, x, y);
    } else {
      assert forall i :: 0 <= i < |programs| ==> Misses(programs[i], x, y);
      AllMissIsHarmless(programs, x, y);
    }
  }

  lemma AllMissIsHarmless(programs: seq<seq<Glyph>>, x: int, y: int)
    requires forall i :: 0 <= i < |programs| ==> Misses(programs[i], x, y)
    ensures Harmless(programs, x, y)
  {
    assert AllShow(programs, x, y, 0);
  }

  /** Any two interleavings in which the threads come equally far leave the same buffer. */
  lemma OrderIrrelevant(cells: seq<byte>, width: nat, height: nat, programs: seq<seq<Glyph>>,
                        schedule: seq<nat>, other: seq<nat>)
    requires |cells| == width * height
    requires forall x, y :: OnScreen(x, y, width, height) ==> Harmless(programs, x, y)
    requires Progress(programs, schedule) == Progress(programs, other)
    ensures Paint(cells, width, height, Interleaved(programs, schedule))
         == Paint(cells, width, height, Interleaved(programs, other))
  {
    Confluence(cells, width, height, programs, schedule);
    Confluence(cells, width, height, programs, other);
  }

  // Where two threads draw different characters at one position, the order shows.

  function Block(i: nat, count: nat): seq<nat> {
    seq(count, _ => i)
  }

  lemma StepRuns(programs: seq<seq<Glyph>>, schedule: seq<nat>, i: nat)
    requires CanStep(programs, Progress(programs, schedule), i)
    ensures var done := Progress(programs, schedule);
            && Progress(programs, schedule + [i]) == done[i := done[i] + 1]
            && Interleaved(programs, schedule + [i]) == Interleaved(programs, schedule) + [programs[i][done[i]]]
  {
    var longer := schedule + [i];
    assert longer[..|longer| - 1] == schedule && longer[|longer| - 1] == i && longer != [];
    var done := Progress(programs, schedule);
    ProgressNext(programs, schedule, i);
    hide Progress;
    assert Interleaved(programs, longer) == Interleaved(programs, schedule) + [programs[i][done[i]]];
  }

  lemma ProgressNext(programs: seq<seq<Glyph>>, schedule: seq<nat>, i: nat)
    requires CanStep(programs, Progress(programs, schedule), i)
    ensures var done := Progress(programs, schedule);
            Progress(programs, schedule + [i]) == done[i := done[i] + 1]
  {
    assert (schedule + [i])[..|schedule|] == schedule;
  }

  /** A thread that makes some steps in a row. */
  lemma {:induction false} BlockRuns(programs: seq<seq<Glyph>>, schedule: seq<nat>, i: nat, count: nat)
    requires i < |programs| && Progress(programs, schedule)[i] + count <= |programs[i]|
    ensures var done := Progress(programs, schedule);
            && Progress(programs, schedule + Block(i, count)) == done[i := done[i] + count]
            && Interleaved(programs, schedule + Block(i, count))
               == Interleaved(programs, schedule) + programs[i][done[i]..done[i] + count]
  {
    hide Interleaved, Progress;
    var done := Progress(programs, schedule);
    if count == 0 {
      assert schedule + Block(i, 0) == schedule;
    } else {
      var shorter := schedule + Block(i, count - 1);
      BlockRuns(programs, schedule, i, count - 1);
      StepRuns(programs, shorter, i);
      assert schedule + Block(i, count) == shorter + [i];
      SliceNext(programs[i], done[i], count - 1);
    }
  }

  lemma SliceNext(gs: seq<Glyph>, at: nat, count: nat)
    requires at + count < |gs|
    ensures gs[at..at + count + 1] == gs[at..at + count] + [gs[at + count]]
  {
  }

  /** Thread j makes its steps, then thread i, and no other thread runs. */
  lemma TwoBlocks(programs: seq<seq<Glyph>>, i: nat, m: nat, j: nat, n: nat)
    requires i < j < |programs| && m <= |programs[i]| && n <= |programs[j]|
    ensures var schedule := Block(j, n) + Block(i, m);
            && Interleaved(programs, schedule) == programs[j][..n] + programs[i][..m]
            && Progress(programs, schedule) == seq(|programs|, _ => 0)[j := n][i := m]
  {
    BlockRuns(programs, [], j, n);
    assert [] + Block(j, n) == Block(j, n);
    assert [] + programs[j][0..n] == programs[j][..n];
    BlockRuns(programs, Block(j, n), i, m);
    assert programs[i][0..m] == programs[i][..m];
  }

  lemma {:induction false} InTurnTwo(programs: seq<seq<Glyph>>, done: seq<nat>, i: nat, m: nat, j: nat, n: nat, k: nat)
    requires i < j < |programs| && m <= |programs[i]| && n <= |programs[j]| && k <= |programs|
    requires done == seq(|programs|, _ => 0)[j := n][i := m]
    ensures InTurn(programs[..k], done[..k])
         == (if i < k then programs[i][..m] else []) + (if j < k then programs[j][..n] else [])
  {
    if k > 0 {
      assert programs[..k][..k - 1] == programs[..k - 1] && done[..k][..k - 1] == done[..k - 1];
      InTurnTwo(programs, done, i, m, j, n, k - 1);
      assert programs[k - 1][..0] == [];
    }
  }

  /** Whatever was there before, the series leaves this character at the position. */
  ghost predicate Leaves(gs: seq<Glyph>, x: int, y: int, ch: byte) {
    forall before :: LastGlyph(gs, x, y, before) == ch
  }

  lemma OrderShows(cells: seq<byte>, width: nat, height: nat, programs: seq<seq<Glyph>>,
                   i: nat, m: nat, j: nat, n: nat, x: int, y: int, a: byte, b: byte)
    requires |cells| == width * height && OnScreen(x, y, width, height)
    requires i < j < |programs| && m <= |programs[i]| && n <= |programs[j]|
    requires Leaves(programs[i][..m], x, y, a) && Leaves(programs[j][..n], x, y, b) && a != b
    ensures !Agrees(cells, width, height, programs, Block(j, n) + Block(i, m))
  {
    hide Paint, Pixel, InTurn, LastGlyph, Interleaved, Progress;
    var schedule := Block(j, n) + Block(i, m);
    var done := Progress(programs, schedule);
    TwoBlocks(programs, i, m, j, n);
    InTurnTwo(programs, done, i, m, j, n, |programs|);
    assert programs[..|programs|] == programs && done[..|programs|] == done;
    var p, q, before := programs[i][..m], programs[j][..n], Pixel(cells, width, height, x, y);
    PaintPixel(cells, width, height, q + p, x, y);
    PaintPixel(cells, width, height, p + q, x, y);
    LastGlyphConcat(q, p, x, y, before);
    LastGlyphConcat(p, q, x, y, before);
  }

  /** Two threads that after some of their writes leave different characters at this position. */
  ghost predicate Differ(p: seq<Glyph>, q: seq<Glyph>, x: int, y: int) {
    exists m: nat, n: nat, a: byte, b: byte ::
      m <= |p| && n <= |q| && a != b && Leaves(p[..m], x, y, a) && Leaves(q[..n], x, y, b)
  }

  lemma DifferenceShows(cells: seq<byte>, width: nat, height: nat, programs: seq<seq<Glyph>>, i: nat, j: nat,
                        x: int, y: int)
    returns (schedule: seq<nat>)
    requires |cells| == width * height && OnScreen(x, y, width, height)
    requires i < j < |programs| && Differ(programs[i], programs[j], x, y)
    ensures !Agrees(cells, width, height, programs, schedule)
  {
    hide OnScreen, Agrees, Leaves;
    var m: nat, n: nat, a: byte, b: byte :|
      m <= |programs[i]| && n <= |programs[j]| && a != b
      && Leaves(programs[i][..m], x, y, a) && Leaves(programs[j][..n], x, y, b);
    schedule := Block(j, n) + Block(i, m);
    OrderShows(cells, width, height, programs, i, m, j, n, x, y, a, b);
  }

  lemma HitLeaves(p: seq<Glyph>, m: nat, x: int, y: int)
    requires m < |p| && Hits(p[m], x, y)
    ensures Leaves(p[..m + 1], x, y, p[m].ch)
  {
    assert p[..m + 1][..m] == p[..m];
  }

  /** Two threads that draw different characters at the position. */
  predicate Clash(programs: seq<seq<Glyph>>, i: nat, m: nat, j: nat, n: nat, x: int, y: int) {
    && i < |programs| && m < |programs[i]| && j < |programs| && n < |programs[j]| && i != j
    && Hits(programs[i][m], x, y) && Hits(programs[j][n], x, y) && programs[i][m].ch != programs[j][n].ch
  }

  /** Where several threads draw, and not always the same, some two of them draw different characters. */
  lemma SomeClash(programs: seq<seq<Glyph>>, x: int, y: int) returns (i: nat, m: nat, j: nat, n: nat)
    requires !Harmless(programs, x, y)
    ensures Clash(programs, i, m, j, n, x, y)
  {
    if forall k :: 0 <= k < |programs| ==> Misses(programs[k], x, y) {
      AllMissIsHarmless(programs, x, y);
    }
    i :| 0 <= i < |programs| && !Misses(programs[i], x, y);
    assert !OnlyOwner(programs, i, x, y);
    j :| 0 <= j < |programs| && j != i && !Misses(programs[j], x, y);
    m :| 0 <= m < |programs[i]| && Hits(programs[i][m], x, y);
    n :| 0 <= n < |programs[j]| && Hits(programs[j][n], x, y);
    var ch := programs[i][m].ch;
    if programs[j][n].ch == ch {
      assert !AllShow(programs, x, y, ch);
      var k :| 0 <= k < |programs| && !ShowsOnly(programs[k], x, y, ch);
      var q :| 0 <= q < |programs[k]| && Hits(programs[k][q], x, y) && programs[k][q].ch != ch;
      if k == i {
        m := q;
      } else {
        j, n := k, q;
      }
    }
  }

  lemma ClashShows(cells: seq<byte>, width: nat, height: nat, programs: seq<seq<Glyph>>,
                   i: nat, m: nat, j: nat, n: nat, x: int, y: int)
    returns (schedule: seq<nat>)
    requires |cells| == width * height && OnScreen(x, y, width, height) && Clash(programs, i, m, j, n, x, y)
    ensures !Agrees(cells, width, height, programs, schedule)
  {
    hide OnScreen, Agrees, Leaves;
    HitLeaves(programs[i], m, x, y);
    HitLeaves(programs[j], n, x, y);
    var a, b := programs[i][m].ch, programs[j][n].ch;
    if i < j {
      schedule := Block(j, n + 1) + Block(i, m + 1);
      OrderShows(cells, width, height, programs, i, m + 1, j, n + 1, x, y, a, b);
    } else {
      schedule := Block(i, m + 1) + Block(j, n + 1);
      OrderShows(cells, width, height, programs, j, n + 1, i, m + 1, x, y, b, a);
    }
  }

  /** Confluence, exactly: every schedule agrees with running the threads one after another, at every moment, just if at
      each visible position only one thread draws, or all draw the same. */
  lemma ConfluenceIff(cells: seq<byte>, width: nat, height: nat, programs: seq<seq<Glyph>>)
    requires |cells| == width * height
    ensures (forall schedule :: Agrees(cells, width, height, programs, schedule))
       <==> forall x, y :: OnScreen(x, y, width, height) ==> Harmless(programs, x, y)
  {
    hide OnScreen, Agrees, Harmless;
    if x, y :| OnScreen(x, y, width, height) && !Harmless(programs, x, y) {
      var i, m, j, n := SomeClash(programs, x, y);
      var schedule := ClashShows(cells, width, height, programs, i, m, j, n, x, y);
    } else {
      forall schedule ensures Agrees(cells, width, height, programs, schedule) {
        Confluence(cells, width, height, programs, schedule);
      }
    }
  }
}
