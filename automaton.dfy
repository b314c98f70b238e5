/** The `RobustLife` automaton object (RobustLife.java:34-339, 587-663): its
    history array, settle countdown, noise parameters and random stream, and
    the operations that change them.  Every method is proved to compute the
    pure function of AutomatonSpec or Loading that describes it. */
module Automata {
  import opened Life
  import opened ConeLayout
  import opened ConeSpec
  import opened Cones
  import opened AutomatonSpec
  import opened Loading

  class RobustLife {
    var width: int
    var height: int
    var range: int
    /** cells[layer][x][y], layer 0 the newest generation. */
    var cells: array3<bool>
    var synchCount: int
    var noise: real
    var internalDistance: real
    /** The random stream, as the sequence of its draws, and the number of
        draws taken from it so far. */
    var rng: nat -> real
    var drawn: nat
    /** The last cell the mouse toggled. */
    var lastX: int
    var lastY: int

    ghost predicate Valid()
      reads this
    {
      range >= 1 && width > 0 && height > 0
      && cells.Length0 == range && cells.Length1 == width && cells.Length2 == height
      && 0 <= synchCount < range
    }

    /** The automaton's fields as a value. */
    ghost function State(): (a: Automaton)
      reads this, cells
      ensures Valid() ==> WellShaped(a)
    {
      Automaton(range, synchCount, noise, internalDistance, width, height, Snapshot(cells), drawn)
    }

    /** `new RobustLife(size, displaySize, range)`: `range` dead generations,
        countdown at range - 1, no noise, no internal distance.  The display
        size only concerns the canvas; the clock-seeded generator is passed
        in as its stream of draws. */
    constructor (width: int, height: int, range: int, rng: nat -> real)
      requires width > 0 && height > 0 && range >= 1
      ensures Valid()
      ensures State() == Automaton(range, range - 1, 0.0, 0.0, width, height, Blank(range, width, height), 0)
      ensures this.rng == rng && lastX == -1 && lastY == -1
    {
      this.width := width;
      this.height := height;
      this.range := range;
      synchCount := range - 1;
      cells := new bool[range, width, height]((_, _, _) => false);
      noise := 0.0;
      internalDistance := 0.0;
      this.rng := rng;
      drawn := 0;
      lastX, lastY := -1, -1;
      new;
      forall l, x, y | 0 <= l < range && 0 <= x < width && 0 <= y < height
        ensures Snapshot(cells)[l][x][y] == Blank(range, width, height)[l][x][y]
      {
        SnapshotAt(cells, l, x, y);
      }
      HistoryExtensionality(Snapshot(cells), Blank(range, width, height), range, width, height);
    }

    /** `setRandomSeed`: a fresh generator, none of whose draws are taken yet. */
    method SetRandomSeed(rng: nat -> real)
      requires Valid()
      modifies this
      ensures Valid() && this.rng == rng
      ensures State() == old(State()).(drawn := 0)
      ensures cells == old(cells) && lastX == old(lastX) && lastY == old(lastY)
    {
      this.rng := rng;
      drawn := 0;
    }

    /** `setNoise`: unchecked, as in the source. */
    method SetNoise(noise: real)
      requires Valid()
      modifies this
      ensures Valid() && rng == old(rng)
      ensures State() == old(State()).(noise := noise)
      ensures cells == old(cells) && lastX == old(lastX) && lastY == old(lastY)
    {
      this.noise := noise;
    }

    /** `setInternalDistance`: unchecked, as in the source. */
    method SetInternalDistance(internalDistance: real)
      requires Valid()
      modifies this
      ensures Valid() && rng == old(rng)
      ensures State() == old(State()).(internalDistance := internalDistance)
      ensures cells == old(cells) && lastX == old(lastX) && lastY == old(lastY)
    {
      this.internalDistance := internalDistance;
    }

    // ------------------------------------------------------------------
    // step() and step(int) (RobustLife.java:272-339)
    // ------------------------------------------------------------------

    /** `step()`: compute every cell's next state through its light cone,
        move the history one layer back, store the new generation as layer
        0 and count the settle countdown down. */
    method Step()
      requires Valid()
      modifies this, cells
      ensures Valid() && cells == old(cells)
      ensures State() == StepF(old(State()), rng)
      ensures rng == old(rng) && lastX == old(lastX) && lastY == old(lastY)
    {
      var work, cursor := NewGeneration();
      Push(work);
      drawn := cursor;
      if synchCount > 0 {
        synchCount := synchCount - 1;
      }
    }

    /** The first double loop of `step()`: every cell's next state, in
        `workCells`, visiting cells x outer, y inner.  Returns the position
        reached in the random stream. */
    method NewGeneration() returns (work: array2<bool>, cursor: nat)
      requires Valid()
      ensures work.Length0 == width && work.Length1 == height
      ensures GridOf(work) == NextLayer(State(), rng)
      ensures cursor == StepF(State(), rng).drawn
    {
      ghost var a := State();
      work := new bool[width, height];
      cursor := drawn;
      DrawOffsetStep(a, 0, 0);
      for x := 0 to width
        invariant forall x', y :: 0 <= x' < x && 0 <= y < height ==> work[x', y] == CellNext(a, rng, x', y)
        invariant cursor == if Correcting(a) then DrawOffset(a, x, 0) else a.drawn
      {
        cursor := NextColumn(x, work, cursor);
      }
      assert (width * height + 0) * Base(range) == width * height * Base(range);
      GridExtensionality(GridOf(work), NextLayer(a, rng), width, height);
    }

    /** The inner loop of the first double loop of `step()`, for column x. */
    method NextColumn(x: int, work: array2<bool>, cursor0: nat) returns (cursor: nat)
      requires Valid() && 0 <= x < width && work.Length0 == width && work.Length1 == height
      requires cursor0 == if Correcting(State()) then DrawOffset(State(), x, 0) else drawn
      modifies work
      ensures forall y :: 0 <= y < height ==> work[x, y] == CellNext(State(), rng, x, y)
      ensures forall x', y :: 0 <= x' < width && x' != x && 0 <= y < height ==> work[x', y] == old(work[x', y])
      ensures cursor == if Correcting(State()) then DrawOffset(State(), x + 1, 0) else drawn
    {
      ghost var a := State();
      cursor := cursor0;
      for y := 0 to height
        invariant forall y' :: 0 <= y' < y ==> work[x, y'] == CellNext(a, rng, x, y')
        invariant forall x', y' :: 0 <= x' < width && x' != x && 0 <= y' < height ==> work[x', y'] == old(work[x', y'])
        invariant cursor == if Correcting(a) then DrawOffset(a, x, y) else a.drawn
      {
        DrawOffsetStep(a, x, y);
        var alive;
        alive, cursor := CellStep(x, y, cursor);
        work[x, y] := alive;
      }
      DrawOffsetStep(a, x, height);
    }

    /** One cell of `step()`: build its cone; once settled and with the noise
        on, noise it from the shared stream and correct it; then apply the
        Life rule to it. */
    method CellStep(x: int, y: int, cursor: nat) returns (alive: bool, next: nat)
      requires Valid() && 0 <= x < width && 0 <= y < height
      requires Correcting(State()) ==> cursor == DrawOffset(State(), x, y)
      ensures alive == CellNext(State(), rng, x, y)
      ensures next == if Correcting(State()) then cursor + Base(range) else cursor
    {
      var cone := new Cone(cells, width, height, range, noise, internalDistance, x, y);
      next := cursor;
      if synchCount == 0 && noise > 0.0 {
        next := cone.AddNoise(rng, cursor);
        cone.CorrectNoise();
      }
      alive := cone.Step();
    }

    /** The rest of `step()`: the history moves one layer back and `work`
        becomes the newest layer. */
    method Push(work: array2<bool>)
      requires Valid() && work.Length0 == width && work.Length1 == height
      modifies cells
      ensures Snapshot(cells) == [GridOf(work)] + old(Snapshot(cells))[..range - 1]
    {
      ghost var H0 := Snapshot(cells);
      forall l, x, y | 0 <= l < range && 0 <= x < width && 0 <= y < height
        ensures H0[l][x][y] == cells[l, x, y]
      {
        SnapshotAt(cells, l, x, y);
      }
      ShiftHistory();
      WriteNewest(work);
      ghost var H := [GridOf(work)] + H0[..range - 1];
      ghost var H1 := Snapshot(cells);
      forall l, x, y | 0 <= l < range && 0 <= x < width && 0 <= y < height
        ensures H1[l][x][y] == H[l][x][y]
      {
        SnapshotAt(cells, l, x, y);
        if l > 0 {
          assert H[l] == H0[l - 1];
        }
      }
      HistoryExtensionality(H1, H, range, width, height);
    }

    /** The chronological shift of `step()`: layers range-2 down to 0 each
        copied one layer back. */
    method ShiftHistory()
      requires Valid()
      modifies cells
      ensures forall l, x, y :: 0 < l < range && 0 <= x < width && 0 <= y < height ==>
        cells[l, x, y] == old(cells[l - 1, x, y])
      ensures forall x, y :: 0 <= x < width && 0 <= y < height ==> cells[0, x, y] == old(cells[0, x, y])
    {
      var r := range - 2;
      while r >= 0
        invariant -1 <= r <= range - 2
        invariant forall l, x, y :: r + 1 < l < range && 0 <= x < width && 0 <= y < height ==>
          cells[l, x, y] == old(cells[l - 1, x, y])
        invariant forall l, x, y :: 0 <= l <= r + 1 && 0 <= x < width && 0 <= y < height ==>
          cells[l, x, y] == old(cells[l, x, y])
        decreases r + 1
      {
        CopyLayer(r);
        r := r - 1;
      }
    }

    /** Layer r + 1 becomes a copy of layer r. */
    method CopyLayer(r: int)
      requires Valid() && 0 <= r && r + 1 < range
      modifies cells
      ensures forall x, y :: 0 <= x < width && 0 <= y < height ==> cells[r + 1, x, y] == old(cells[r, x, y])
      ensures forall l, x, y :: 0 <= l < range && l != r + 1 && 0 <= x < width && 0 <= y < height ==>
        cells[l, x, y] == old(cells[l, x, y])
    {
      for x := 0 to width
        invariant forall x', y :: 0 <= x' < x && 0 <= y < height ==> cells[r + 1, x', y] == old(cells[r, x', y])
        invariant forall l, x', y :: 0 <= l < range && (l != r + 1 || x <= x' < width) && 0 <= x' < width && 0 <= y < height ==>
          cells[l, x', y] == old(cells[l, x', y])
      {
        for y := 0 to height
          invariant forall x', y' :: 0 <= x' < x && 0 <= y' < height ==> cells[r + 1, x', y'] == old(cells[r, x', y'])
          invariant forall y' :: 0 <= y' < y ==> cells[r + 1, x, y'] == old(cells[r, x, y'])
          invariant forall l, x', y' :: 0 <= l < range && 0 <= x' < width && 0 <= y' < height
                                        && (l != r + 1 || x < x' || (x == x' && y <= y')) ==>
            cells[l, x', y'] == old(cells[l, x', y'])
        {
          cells[r + 1, x, y] := cells[r, x, y];
        }
      }
    }

    /** The last double loop of `step()`: layer 0 becomes `workCells`. */
    method WriteNewest(work: array2<bool>)
      requires Valid() && work.Length0 == width && work.Length1 == height
      modifies cells
      ensures forall x, y :: 0 <= x < width && 0 <= y < height ==> cells[0, x, y] == work[x, y]
      ensures forall l, x, y :: 0 < l < range && 0 <= x < width && 0 <= y < height ==> cells[l, x, y] == old(cells[l, x, y])
    {
      for x := 0 to width
        invariant forall x', y :: 0 <= x' < x && 0 <= y < height ==> cells[0, x', y] == work[x', y]
        invariant forall l, x', y :: 0 < l < range && 0 <= x' < width && 0 <= y < height ==> cells[l, x', y] == old(cells[l, x', y])
      {
        for y := 0 to height
          invariant forall x', y' :: 0 <= x' < x && 0 <= y' < height ==> cells[0, x', y'] == work[x', y']
          invariant forall y' :: 0 <= y' < y ==> cells[0, x, y'] == work[x, y']
          invariant forall l, x', y' :: 0 < l < range && 0 <= x' < width && 0 <= y' < height ==> cells[l, x', y'] == old(cells[l, x', y'])
        {
          cells[0, x, y] := work[x, y];
        }
      }
    }

    /** `step(cycles)`: `cycles` steps (none when cycles <= 0). */
    method StepN(cycles: int)
      requires Valid()
      modifies this, cells
      ensures Valid() && cells == old(cells)
      ensures State() == StepsF(old(State()), rng, if cycles > 0 then cycles else 0)
      ensures rng == old(rng) && lastX == old(lastX) && lastY == old(lastY)
    {
      var i := 0;
      while i < cycles
        invariant Valid() && cells == old(cells) && 0 <= i <= (if cycles > 0 then cycles else 0)
        invariant State() == StepsF(old(State()), rng, i)
        invariant rng == old(rng) && lastX == old(lastX) && lastY == old(lastY)
      {
        Step();
        i := i + 1;
      }
    }

    // ------------------------------------------------------------------
    // clear() (RobustLife.java:587-601)
    // ------------------------------------------------------------------

    /** `clear()`: every cell of every layer dead. */
    method Clear()
      requires Valid()
      modifies cells
      ensures State() == ClearF(old(State()))
    {
      for r := 0 to range
        invariant forall l, x, y :: 0 <= l < r && 0 <= x < width && 0 <= y < height ==> !cells[l, x, y]
      {
        ClearLayer(r);
      }
      var B := Blank(range, width, height);
      forall l, x, y | 0 <= l < range && 0 <= x < width && 0 <= y < height
        ensures Snapshot(cells)[l][x][y] == B[l][x][y]
      {
        SnapshotAt(cells, l, x, y);
      }
      HistoryExtensionality(Snapshot(cells), B, range, width, height);
    }

    /** Every cell of layer r dead; the other layers kept. */
    method ClearLayer(r: int)
      requires Valid() && 0 <= r < range
      modifies cells
      ensures forall x, y :: 0 <= x < width && 0 <= y < height ==> !cells[r, x, y]
      ensures forall l, x, y :: 0 <= l < range && l != r && 0 <= x < width && 0 <= y < height ==>
        cells[l, x, y] == old(cells[l, x, y])
    {
      for x := 0 to width
        invariant forall x', y :: 0 <= x' < x && 0 <= y < height ==> !cells[r, x', y]
        invariant forall l, x', y :: 0 <= l < range && l != r && 0 <= x' < width && 0 <= y < height ==>
          cells[l, x', y] == old(cells[l, x', y])
      {
        for y := 0 to height
          invariant forall x', y' :: 0 <= x' < x && 0 <= y' < height ==> !cells[r, x', y']
          invariant forall y' :: 0 <= y' < y ==> !cells[r, x, y']
          invariant forall l, x', y' :: 0 <= l < range && l != r && 0 <= x' < width && 0 <= y' < height ==>
            cells[l, x', y'] == old(cells[l, x', y'])
        {
          cells[r, x, y] := false;
        }
      }
    }

    // ------------------------------------------------------------------
    // The mouse listeners' cell toggle (RobustLife.java:617-663)
    // ------------------------------------------------------------------

    /** `mousePressed`, from the cell under the pointer on: a cell of the
        grid is toggled and remembered, and the countdown restarts; a point
        off the grid does nothing. */
    method Press(x: int, y: int)
      requires Valid()
      modifies this, cells
      ensures Valid() && cells == old(cells) && rng == old(rng)
      ensures State() == if InGrid(old(State()), x, y) then ToggleF(old(State()), x, y) else old(State())
      ensures (lastX, lastY) == if InGrid(old(State()), x, y) then (x, y) else (old(lastX), old(lastY))
    {
      if x >= 0 && x < width && y >= 0 && y < height {
        lastX := x;
        lastY := y;
        Toggle(x, y);
      }
    }

    /** `mouseDragged`, from the cell under the pointer on: as a press, but
        only when the pointer has moved to another cell than the last one
        toggled, so dragging within a cell toggles it once. */
    method Drag(x: int, y: int)
      requires Valid()
      modifies this, cells
      ensures Valid() && cells == old(cells) && rng == old(rng)
      ensures State() == if InGrid(old(State()), x, y) && (x, y) != (old(lastX), old(lastY))
                         then ToggleF(old(State()), x, y) else old(State())
      ensures (lastX, lastY) == if InGrid(old(State()), x, y) then (x, y) else (old(lastX), old(lastY))
    {
      if x >= 0 && x < width && y >= 0 && y < height {
        if x != lastX || y != lastY {
          lastX := x;
          lastY := y;
          Toggle(x, y);
        }
      }
    }

    /** The toggle both listeners run under the lock. */
    method Toggle(x: int, y: int)
      requires Valid() && 0 <= x < width && 0 <= y < height
      modifies this, cells
      ensures Valid() && cells == old(cells) && rng == old(rng) && lastX == old(lastX) && lastY == old(lastY)
      ensures State() == ToggleF(old(State()), x, y)
    {
      Flip(x, y);
      synchCount := range - 1;
    }

    /** The newest layer's cell (x, y) flipped, nothing else. */
    method Flip(x: int, y: int)
      requires Valid() && 0 <= x < width && 0 <= y < height
      modifies cells
      ensures Snapshot(cells) == FlipCell(old(Snapshot(cells)), x, y)
    {
      ghost var H0 := Snapshot(cells);
      SnapshotAt(cells, 0, x, y);
      forall l, x', y' | 0 <= l < range && 0 <= x' < width && 0 <= y' < height
        ensures H0[l][x'][y'] == cells[l, x', y']
      {
        SnapshotAt(cells, l, x', y');
      }
      if cells[0, x, y] {
        cells[0, x, y] := false;
      } else {
        cells[0, x, y] := true;
      }
      ghost var H := FlipCell(H0, x, y);
      ghost var H1 := Snapshot(cells);
      forall l, x', y' | 0 <= l < range && 0 <= x' < width && 0 <= y' < height
        ensures H1[l][x'][y'] == H[l][x'][y']
      {
        SnapshotAt(cells, l, x', y');
        if (l, x', y') != (0, x, y) {
          assert cells[l, x', y'] == old(cells[l, x', y']);
        }
      }
      HistoryExtensionality(H1, H, range, width, height);
    }

    // ------------------------------------------------------------------
    // load (RobustLife.java:108-238)
    // ------------------------------------------------------------------

    /** `load`, with the whole file checked before anything is assigned: a
        rejected file changes nothing and its error is returned; an accepted
        one sets the range, noise and size and makes exactly the listed
        cells of the newest layer live. */
    method Load(lines: seq<Line>) returns (err: Option<LoadError>)
      requires Valid()
      modifies this
      ensures Valid()
      ensures (State(), err) == LoadF(old(State()), lines)
      ensures rng == old(rng) && lastX == old(lastX) && lastY == old(lastY)
    {
      var parsed := ParseFile(lines);
      if parsed.Failure? {
        return Some(parsed.error);
      }
      var s := parsed.value;
      ParsedCellsInGrid(lines[3..], s.width, s.height);
      var layers := Layers(s);
      range, synchCount, noise, width, height, cells := s.range, s.range - 1, s.noise, s.width, s.height, layers;
      err := None;
    }
  }

  /** The arrays `load` fills: `range` dead layers with the listed cells of
      the newest one set live. */
  method Layers(s: Settings) returns (layers: array3<bool>)
    requires s.range >= 1 && s.width > 0 && s.height > 0
    requires forall c :: c in s.live ==> 0 <= c.0 < s.width && 0 <= c.1 < s.height
    ensures layers.Length0 == s.range && layers.Length1 == s.width && layers.Length2 == s.height
    ensures Snapshot(layers) == LoadedHistory(s)
  {
    layers := new bool[s.range, s.width, s.height]((_, _, _) => false);
    for i := 0 to |s.live|
      invariant forall l, x, y :: 0 <= l < s.range && 0 <= x < s.width && 0 <= y < s.height ==>
        (layers[l, x, y] <==> l == 0 && (x, y) in s.live[..i])
    {
      var c := s.live[i];
      assert s.live[..i + 1] == s.live[..i] + [c];
      layers[0, c.0, c.1] := true;
    }
    assert s.live[..|s.live|] == s.live;
    var L := LoadedHistory(s);
    forall l, x, y | 0 <= l < s.range && 0 <= x < s.width && 0 <= y < s.height
      ensures Snapshot(layers)[l][x][y] == L[l][x][y]
    {
      SnapshotAt(layers, l, x, y);
    }
    HistoryExtensionality(Snapshot(layers), L, s.range, s.width, s.height);
  }

  /** The contents of a two-dimensional array as a grid. */
  ghost function GridOf(work: array2<bool>): (g: Grid)
    reads work
    ensures IsGrid(g, work.Length0, work.Length1)
  {
    seq(work.Length0, x requires 0 <= x < work.Length0 reads work =>
      seq(work.Length1, y requires 0 <= y < work.Length1 reads work => work[x, y]))
  }
}
