/** The light cone a cell builds each step (RobustLife.java:340-584): its
    layers of readings, confidence weights and visit marks held in three
    arrays, laid out as ConeLayout says.  Every method is proved to compute
    the pure function of ConeSpec that describes it. */
module Cones {
  import opened Life
  import opened ConeLayout
  import opened ConeSpec

  /** The automaton's history array as a value: H[layer][x][y]. */
  ghost function Snapshot(cells: array3<bool>): (H: History)
    reads cells
    ensures |H| == cells.Length0 && IsHistory(H, cells.Length1, cells.Length2)
  {
    seq(cells.Length0, l requires 0 <= l < cells.Length0 reads cells =>
      seq(cells.Length1, x requires 0 <= x < cells.Length1 reads cells =>
        seq(cells.Length2, y requires 0 <= y < cells.Length2 reads cells => cells[l, x, y])))
  }

  /** One reading of the snapshot is the array's cell. */
  lemma SnapshotAt(cells: array3<bool>, l: int, x: int, y: int)
    requires 0 <= l < cells.Length0 && 0 <= x < cells.Length1 && 0 <= y < cells.Length2
    ensures Snapshot(cells)[l][x][y] == cells[l, x, y]
  {
  }

  /** What `init` stores at local (x, y) of layer `l` is what the built cone
      holds there: the wrapped history cell and the distance weight. */
  lemma InitCellFacts(cells: array3<bool>, width: int, height: int, noise: real, internalDistance: real,
                      cx: int, cy: int, depth: nat, l: nat, x: int, x2: int, y: int, y2: int)
    requires l < depth <= cells.Length0 && InLayer(l, x, y)
    requires width > 0 && height > 0 && cells.Length1 == width && cells.Length2 == height
    requires x2 == (cx - Dim(l) / 2 + x) % width && y2 == (cy - Dim(l) / 2 + y) % height
    ensures 0 <= Index(l, x, y) < Base(depth) && 0 <= x2 < width && 0 <= y2 < height
    ensures cells[l, x2, y2] == BuiltStates(Snapshot(cells), width, height, cx, cy, depth)[Index(l, x, y)]
    ensures Weight(noise, internalDistance, Dim(l) / 2, x, y)
         == BuiltWeights(noise, internalDistance, depth)[Index(l, x, y)]
  {
    DimCentre(l);
    IndexInLayer(l, x, y);
    BaseMonotone(l + 1, depth);
    SnapshotAt(cells, l, x2, y2);
    BuiltStatesAt(Snapshot(cells), width, height, cx, cy, depth, l, x, y);
    BuiltWeightsAt(noise, internalDistance, depth, l, x, y);
  }

  class Cone {
    const range: nat
    const noise: real
    /** Number of layers held: range when noise is on, otherwise just the newest. */
    const depth: nat
    const states: array<bool>
    const weights: array<real>
    const marks: array<bool>

    ghost predicate Valid()
      reads this, states, weights, marks
    {
      range >= 1 && depth == ConeDepth(range, noise)
      && states.Length == Base(depth) && weights.Length == Base(depth) && marks.Length == Base(depth)
      && states != marks
    }

    /** The cone's contents as a value. */
    ghost function Val(): (v: ConeVal)
      reads this, states, weights, marks
      ensures Valid() ==> Shaped(v, depth)
    {
      ConeVal(states[..], weights[..], marks[..])
    }

    /** `new Cone(cx, cy)`: read the light cone of cell (cx, cy) out of the
        history, layer by layer while the noise is on. */
    constructor (cells: array3<bool>, width: int, height: int, range: nat, noise: real, internalDistance: real,
                 cx: int, cy: int)
      requires width > 0 && height > 0 && range >= 1
      requires cells.Length0 == range && cells.Length1 == width && cells.Length2 == height
      ensures Valid() && this.range == range && this.noise == noise
      ensures Val() == Built(Snapshot(cells), width, height, noise, internalDistance, cx, cy)
      ensures fresh(states) && fresh(weights) && fresh(marks)
    {
      this.range := range;
      this.noise := noise;
      var n := if noise > 0.0 then range else 1;
      depth := n;
      states := new bool[Base(n)](_ => false);
      weights := new real[Base(n)](_ => 0.0);
      marks := new bool[Base(n)](_ => false);
      new;
      Init(cells, width, height, internalDistance, cx, cy, 0);
      assert marks[..] == seq(Base(n), _ => false);
    }

    /** Every slot below `n` already holds its built reading and weight. */
    ghost predicate FilledBelow(n: int, bs: seq<bool>, bw: seq<real>)
      reads this, states, weights
    {
      forall j :: 0 <= j < n && j < states.Length && j < weights.Length && j < |bs| && j < |bw| ==>
        states[j] == bs[j] && weights[j] == bw[j]
    }

    /** `init(cx, cy, layer)`: fill layer `l` from history layer `l`, then go
        on to the next layer while below range - 1 with the noise on. */
    method Init(cells: array3<bool>, width: int, height: int, internalDistance: real, cx: int, cy: int, l: nat)
      requires Valid() && l < depth
      requires width > 0 && height > 0 && cells.Length0 == range && cells.Length1 == width && cells.Length2 == height
      requires FilledBelow(Base(l), BuiltStates(Snapshot(cells), width, height, cx, cy, depth),
                           BuiltWeights(noise, internalDistance, depth))
      modifies states, weights
      ensures states[..] == BuiltStates(Snapshot(cells), width, height, cx, cy, depth)
      ensures weights[..] == BuiltWeights(noise, internalDistance, depth)
      decreases depth - l
    {
      InitLayer(cells, width, height, internalDistance, cx, cy, l);
      if l < range - 1 && noise > 0.0 {
        Init(cells, width, height, internalDistance, cx, cy, l + 1);
      } else {
        ghost var bs, bw := BuiltStates(Snapshot(cells), width, height, cx, cy, depth), BuiltWeights(noise, internalDistance, depth);
        assert forall j :: 0 <= j < states.Length ==> states[j] == bs[j];
        assert forall j :: 0 <= j < weights.Length ==> weights[j] == bw[j];
      }
    }

    /** The two loops of `init`: local (x, y) reads the history cell at
        (cx - d2 + x, cy - d2 + y) wrapped onto the torus, and is weighted by
        its Manhattan distance from the centre plus the internal distance. */
    method InitLayer(cells: array3<bool>, width: int, height: int, internalDistance: real, cx: int, cy: int, l: nat)
      requires Valid() && l < depth
      requires width > 0 && height > 0 && cells.Length0 == range && cells.Length1 == width && cells.Length2 == height
      requires FilledBelow(Base(l), BuiltStates(Snapshot(cells), width, height, cx, cy, depth),
                           BuiltWeights(noise, internalDistance, depth))
      modifies states, weights
      ensures FilledBelow(Base(l + 1), BuiltStates(Snapshot(cells), width, height, cx, cy, depth),
                          BuiltWeights(noise, internalDistance, depth))
    {
      ghost var bs, bw := BuiltStates(Snapshot(cells), width, height, cx, cy, depth), BuiltWeights(noise, internalDistance, depth);
      var d := Dim(l);
      var d2 := d / 2;
      DimCentre(l);
      BaseMonotone(l + 1, depth);
      BaseNext(l);
      for x := 0 to d
        invariant FilledBelow(Base(l) + x * d, bs, bw)
      {
        var x2 := WrapIndex(cx - d2 + x, width);
        for y := 0 to d
          invariant FilledBelow(Base(l) + x * d + y, bs, bw)
        {
          InitCell(cells, width, height, internalDistance, cx, cy, l, x, x2, y);
        }
        assert Base(l) + x * d + d == Base(l) + (x + 1) * d;
      }
    }

    /** The body of `init`'s inner loop, for local (x, y) of layer `l`;
        `x2` is the wrapped column the outer loop computed. */
    method InitCell(cells: array3<bool>, width: int, height: int, internalDistance: real, cx: int, cy: int,
                    l: nat, x: int, x2: int, y: int)
      requires Valid() && l < depth && InLayer(l, x, y)
      requires width > 0 && height > 0 && cells.Length0 == range && cells.Length1 == width && cells.Length2 == height
      requires x2 == (cx - Dim(l) / 2 + x) % width
      modifies states, weights
      ensures 0 <= Index(l, x, y) < Base(depth)
      ensures states[Index(l, x, y)] == BuiltStates(Snapshot(cells), width, height, cx, cy, depth)[Index(l, x, y)]
      ensures weights[Index(l, x, y)] == BuiltWeights(noise, internalDistance, depth)[Index(l, x, y)]
      ensures forall j :: 0 <= j < Base(depth) && j != Index(l, x, y) ==>
        states[j] == old(states[j]) && weights[j] == old(weights[j])
    {
      var d2 := Dim(l) / 2;
      var k := Index(l, x, y);
      var y2 := WrapIndex(cy - d2 + y, height);
      InitCellFacts(cells, width, height, noise, internalDistance, cx, cy, depth, l, x, x2, y, y2);
      states[k] := cells[l, x2, y2];
      weights[k] := Weight(noise, internalDistance, d2, x, y);
    }

    // ------------------------------------------------------------------
    // addNoise (RobustLife.java:405-424)
    // ------------------------------------------------------------------

    /** `addNoise`: every reading, layer by layer and row by row, meets the
        next draw of the random stream and flips when the draw reaches its
        weight.  Returns the position of the stream after the last draw. */
    method AddNoise(rng: nat -> real, drawn: nat) returns (next: nat)
      requires Valid()
      modifies states
      ensures Val() == AddNoiseF(old(Val()), rng, drawn)
      ensures next == drawn + Base(depth)
    {
      ghost var orig := states[..];
      next := AddNoiseFrom(rng, drawn, 0, orig);
      assert states[..] == AddNoiseF(old(Val()), rng, drawn).states;
    }

    /** The readings of `orig` with the first `n` noised by draws from `start`. */
    ghost function NoisedUpTo(orig: seq<bool>, w: seq<real>, rng: nat -> real, start: nat, n: int): (s: seq<bool>)
      requires |w| == |orig|
      ensures |s| == |orig|
    {
      seq(|orig|, j requires 0 <= j < |orig| => if j < n then Noisy(orig[j], w[j], rng(start + j)) else orig[j])
    }

    /** Noise layer `l` and, while a next layer exists, the layers after it. */
    method AddNoiseFrom(rng: nat -> real, start: nat, l: nat, ghost orig: seq<bool>) returns (next: nat)
      requires Valid() && l < depth && |orig| == states.Length
      requires states[..] == NoisedUpTo(orig, weights[..], rng, start, Base(l))
      modifies states
      ensures states[..] == NoisedUpTo(orig, weights[..], rng, start, Base(depth))
      ensures next == start + Base(depth)
      decreases depth - l
    {
      var d := Dim(l);
      BaseMonotone(l + 1, depth);
      BaseNext(l);
      var drawn := start + Base(l);
      for x := 0 to d
        invariant drawn == start + Base(l) + x * d
        invariant states[..] == NoisedUpTo(orig, weights[..], rng, start, Base(l) + x * d)
      {
        drawn := AddNoiseRow(rng, start, l, x, drawn, orig);
        assert Base(l) + x * d + d == Base(l) + (x + 1) * d;
      }
      if l + 1 < depth {
        next := AddNoiseFrom(rng, start, l + 1, orig);
      } else {
        next := drawn;
      }
    }

    /** The inner `y` loop of `addNoise` for row `x` of layer `l`; `drawn`
        is the position of the random stream. */
    method AddNoiseRow(rng: nat -> real, start: nat, l: nat, x: int, drawn0: nat, ghost orig: seq<bool>) returns (drawn: nat)
      requires Valid() && l < depth && |orig| == states.Length && 0 <= x < Dim(l)
      requires Base(l + 1) <= Base(depth) && Base(l + 1) == Base(l) + Dim(l) * Dim(l)
      requires drawn0 == start + Base(l) + x * Dim(l)
      requires states[..] == NoisedUpTo(orig, weights[..], rng, start, Base(l) + x * Dim(l))
      modifies states
      ensures drawn == start + Base(l) + x * Dim(l) + Dim(l)
      ensures states[..] == NoisedUpTo(orig, weights[..], rng, start, Base(l) + x * Dim(l) + Dim(l))
    {
      var d := Dim(l);
      drawn := drawn0;
      for y := 0 to d
        invariant drawn == start + Base(l) + x * d + y
        invariant states[..] == NoisedUpTo(orig, weights[..], rng, start, Base(l) + x * d + y)
      {
        RowMajorBound(x, y, d);
        var k := Base(l) + x * d + y;
        if rng(drawn) >= weights[k] {
          states[k] := !states[k];
        }
        drawn := drawn + 1;
      }
    }

    // ------------------------------------------------------------------
    // clearMarks (RobustLife.java:448-461)
    // ------------------------------------------------------------------

    /** `clearMarks`: every visit mark of every layer is cleared. */
    method ClearMarks()
      requires Valid()
      modifies marks
      ensures Val() == ClearMarksF(old(Val()))
    {
      ClearMarksFrom(0);
      assert marks[..] == seq(marks.Length, _ => false);
    }

    /** Clear layer `l` and, while a next layer exists, the layers after it. */
    method ClearMarksFrom(l: nat)
      requires Valid() && l < depth
      requires forall j :: 0 <= j < Base(l) && j < marks.Length ==> !marks[j]
      modifies marks
      ensures forall j :: 0 <= j < marks.Length ==> !marks[j]
      decreases depth - l
    {
      var d := Dim(l);
      BaseMonotone(l + 1, depth);
      BaseNext(l);
      for x := 0 to d
        invariant forall j :: 0 <= j < Base(l) + x * d && j < marks.Length ==> !marks[j]
      {
        for y := 0 to d
          invariant forall j :: 0 <= j < Base(l) + x * d + y && j < marks.Length ==> !marks[j]
        {
          RowMajorBound(x, y, d);
          marks[Base(l) + x * d + y] := false;
        }
        assert Base(l) + x * d + d == Base(l) + (x + 1) * d;
      }
      if l + 1 < depth {
        ClearMarksFrom(l + 1);
      }
    }

    // ------------------------------------------------------------------
    // correctNoise and correctCell (RobustLife.java:427-530)
    // ------------------------------------------------------------------

    /** `correctNoise`: clear the marks, then correct the eight neighbours of
        the centre, x outer and y inner.  Runs on a cone that holds every
        layer the corrector may follow, as the cones of a noisy step do. */
    method CorrectNoise()
      requires Valid() && depth == range
      modifies states, weights, marks
      ensures Val() == CorrectNoiseF(old(Val()), range, noise)
    {
      ClearMarks();
      ghost var v0 := Val();
      for x := 0 to 3
        invariant Val() == CorrectRingF(v0, range, noise, 3 * x)
      {
        CorrectRingRow(x, v0);
      }
    }

    /** The inner `y` loop of `correctNoise`: correct row `x` of layer 0,
        skipping the centre. */
    method CorrectRingRow(x: int, ghost v0: ConeVal)
      requires Valid() && depth == range && 0 <= x < 3
      requires Shaped(v0, range) && Val() == CorrectRingF(v0, range, noise, 3 * x)
      modifies states, weights, marks
      ensures Val() == CorrectRingF(v0, range, noise, 3 * x + 3)
    {
      for y := 0 to 3
        invariant Val() == CorrectRingF(v0, range, noise, 3 * x + y)
      {
        RowMajorDecode(x, y, 3);
        if x != 1 || y != 1 {
          CorrectCell(0, x, y);
        }
      }
    }

    /** `correctCell(cx, cy)` on layer `l`: a visited cell is left alone;
        otherwise it is marked and, unless it is in the oldest layer or the
        noise is off, the 3x3 window of the next layer is corrected first,
        and the cell is then checked against the Life rule on that window. */
    method CorrectCell(l: nat, cx: int, cy: int)
      requires Valid() && depth == range && l < range && InLayer(l, cx, cy)
      modifies states, weights, marks
      ensures Val() == CorrectCellF(old(Val()), range, noise, l, cx, cy)
      decreases range - l, 1
    {
      IndexInLayer(l, cx, cy);
      BaseMonotone(l + 1, depth);
      var i := Index(l, cx, cy);
      if marks[i] {
        return;
      }
      marks[i] := true;
      assert marks[..] == old(marks[..])[i := true];
      if l == range - 1 || noise == 0.0 {
        return;
      }
      ghost var v1 := Val();
      for x := 0 to 3
        invariant Val() == CorrectWindowF(v1, range, noise, l + 1, cx, cy, 3 * x)
      {
        CorrectRow(l, cx, cy, x, v1);
      }
      Judge(l, cx, cy);
    }

    /** The inner `y` loop of `correctCell` on layer `l`: correct row `x` of
        the window of layer l + 1, one cell after another. */
    method CorrectRow(l: nat, cx: int, cy: int, x: int, ghost v1: ConeVal)
      requires Valid() && depth == range && l + 1 < range && InLayer(l, cx, cy) && 0 <= x < 3
      requires Shaped(v1, range) && Val() == CorrectWindowF(v1, range, noise, l + 1, cx, cy, 3 * x)
      modifies states, weights, marks
      ensures Val() == CorrectWindowF(v1, range, noise, l + 1, cx, cy, 3 * x + 3)
      decreases range - l, 0
    {
      var x2 := cx + x;
      for y := 0 to 3
        invariant Val() == CorrectWindowF(v1, range, noise, l + 1, cx, cy, 3 * x + y)
      {
        var y2 := cy + y;
        CorrectWindowNext(v1, range, noise, l + 1, cx, cy, x, y);
        CorrectCell(l + 1, x2, y2);
      }
    }

    /** The last part of `correctCell`: a prediction that disagrees replaces
        the cell only when strictly heavier; one that agrees fuses its weight
        with the cell's. */
    method Judge(l: nat, cx: int, cy: int)
      requires Valid() && l + 1 < depth && InLayer(l, cx, cy)
      modifies states, weights
      ensures Val() == Settle(old(Val()), depth, l, cx, cy)
    {
      IndexInLayer(l, cx, cy);
      BaseMonotone(l + 1, depth);
      var i := Index(l, cx, cy);
      ghost var v0 := Val();
      var state, weight := Predict(l, cx, cy);
      var current, confidence := states[i], weights[i];
      ghost var verdict := Adjudicate(Reading(current, confidence), Reading(state, weight));
      assert Settle(v0, depth, l, cx, cy) == Write(v0, i, verdict);
      if state != current {
        if weight > confidence {
          states[i] := state;
          weights[i] := weight;
        }
      } else {
        var fused := 1.0 - ((1.0 - weight) * (1.0 - confidence));
        assert fused == verdict.weight;
        weights[i] := fused;
      }
      assert states[..] == v0.states[i := verdict.state];
      assert weights[..] == v0.weights[i := verdict.weight];
    }

    /** The comparison half of `correctCell`: count the live cells of the
        window of layer l + 1 around local (cx + 1, cy + 1), skipping its
        centre, multiply the centre's weight by the other eight, and apply
        the Life rule to the centre. */
    method Predict(l: nat, cx: int, cy: int) returns (state: bool, weight: real)
      requires Valid() && l + 1 < depth && InLayer(l, cx, cy)
      ensures Base(l + 2) <= Base(depth)
      ensures Reading(state, weight) == Prediction(Val(), l, cx, cy)
    {
      BaseMonotone(l + 2, depth);
      ghost var ws, ww := Window(states[..], l + 1, cx, cy), Window(weights[..], l + 1, cx, cy);
      WindowSlot(states[..], l + 1, cx, cy, 1, 1);
      WindowSlot(weights[..], l + 1, cx, cy, 1, 1);
      var count := 0;
      weight := weights[Index(l + 1, cx + 1, cy + 1)];
      for x := 0 to 3
        invariant count == CountUpTo(ws, 3 * x)
        invariant weight == WeightUpTo(ww, 3 * x)
      {
        count, weight := ScanRow(l, cx, cy, x, count, weight);
      }
      if states[Index(l + 1, cx + 1, cy + 1)] {
        if count > 3 || count < 2 {
          state := false;
        } else {
          state := true;
        }
      } else {
        if count == 3 {
          state := true;
        } else {
          state := false;
        }
      }
    }

    /** The inner `y` loop of the comparison for row `x` of the window:
        each cell but the centre adds to the count when alive and multiplies
        into the weight. */
    method ScanRow(l: nat, cx: int, cy: int, x: int, count0: nat, weight0: real) returns (count: nat, weight: real)
      requires Valid() && l + 1 < depth && InLayer(l, cx, cy) && 0 <= x < 3
      requires Base(l + 2) <= Base(depth)
      requires count0 == CountUpTo(Window(states[..], l + 1, cx, cy), 3 * x)
      requires weight0 == WeightUpTo(Window(weights[..], l + 1, cx, cy), 3 * x)
      ensures count == CountUpTo(Window(states[..], l + 1, cx, cy), 3 * x + 3)
      ensures weight == WeightUpTo(Window(weights[..], l + 1, cx, cy), 3 * x + 3)
    {
      ghost var ws, ww := Window(states[..], l + 1, cx, cy), Window(weights[..], l + 1, cx, cy);
      count, weight := count0, weight0;
      var x2 := cx + x;
      for y := 0 to 3
        invariant count == CountUpTo(ws, 3 * x + y)
        invariant weight == WeightUpTo(ww, 3 * x + y)
      {
        var y2 := cy + y;
        if x == 1 && y == 1 {
          assert CountUpTo(ws, 5) == CountUpTo(ws, 4);
          assert WeightUpTo(ww, 5) == WeightUpTo(ww, 4);
          continue;
        }
        WindowSlot(states[..], l + 1, cx, cy, x, y);
        WindowSlot(weights[..], l + 1, cx, cy, x, y);
        ghost var k := 3 * x + y;
        var j := Index(l + 1, x2, y2);
        var alive, w := states[j], weights[j];
        CountStep(ws, k, count, alive);
        if alive {
          count := count + 1;
        }
        WeightStep(ww, k, weight, w);
        weight := weight * w;
      }
    }

    // ------------------------------------------------------------------
    // step (RobustLife.java:533-561)
    // ------------------------------------------------------------------

    /** `Cone.step`: the Life rule on the newest layer's 3x3 window. */
    method Step() returns (alive: bool)
      requires Valid()
      ensures Base(1) <= Base(depth)
      ensures alive == ConeLife(Val())
    {
      BaseMonotone(1, depth);
      ghost var ws := Window(states[..], 0, 0, 0);
      var count := 0;
      for x := 0 to 3
        invariant count == CountUpTo(ws, 3 * x)
      {
        for y := 0 to 3
          invariant count == CountUpTo(ws, 3 * x + y)
        {
          if x == 1 && y == 1 {
            assert CountUpTo(ws, 5) == CountUpTo(ws, 4);
            continue;
          }
          WindowSlot(states[..], 0, 0, 0, x, y);
          var live := states[x * 3 + y];
          CountStep(ws, 3 * x + y, count, live);
          if live {
            count := count + 1;
          }
        }
      }
      WindowSlot(states[..], 0, 0, 0, 1, 1);
      if states[4] {
        if count > 3 || count < 2 {
          alive := false;
        } else {
          alive := true;
        }
      } else {
        if count == 3 {
          alive := true;
        } else {
          alive := false;
        }
      }
    }
  }
}
