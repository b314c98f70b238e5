/** What the corrector promises, proved about the pure cone functions: every
    visited cell ends up marked, marks are never cleared, a correction never
    reaches back into newer layers, confidence weights stay probabilities,
    and a corrected reading agrees with the Life rule applied to its own
    history unless it is trusted at least as much as that prediction. */
module ConeProperties {
  import opened Life
  import opened ConeLayout
  import opened ConeSpec

  /** `r` carries every mark `v` carries. */
  predicate MarksKept(v: ConeVal, r: ConeVal)
    requires |v.marks| <= |r.marks|
  {
    forall i :: 0 <= i < |v.marks| && v.marks[i] ==> r.marks[i]
  }

  // ------------------------------------------------------------------
  // Marks
  // ------------------------------------------------------------------

  /** The memo and the floor of the recursion: a visited cell is left as it
      is; an unvisited cell of the oldest layer, or any unvisited cell while
      the noise is off, is only marked. */
  lemma CorrectCellShortcuts(v: ConeVal, range: nat, noise: real, l: nat, cx: int, cy: int)
    requires Shaped(v, range) && l < range && InLayer(l, cx, cy)
    ensures 0 <= Index(l, cx, cy) < Base(range)
    ensures Marked(v, l, cx, cy) ==> CorrectCellF(v, range, noise, l, cx, cy) == v
    ensures !Marked(v, l, cx, cy) && (l == range - 1 || noise == 0.0) ==>
      CorrectCellF(v, range, noise, l, cx, cy) == v.(marks := v.marks[Index(l, cx, cy) := true])
  {
    IndexInLayer(l, cx, cy);
    BaseMonotone(l + 1, range);
  }

  /** After `correctCell(l, cx, cy)` that cell is marked, and no mark was cleared. */
  lemma {:induction false} CorrectCellMarks(v: ConeVal, range: nat, noise: real, l: nat, cx: int, cy: int)
    requires Shaped(v, range) && l < range && InLayer(l, cx, cy)
    ensures Marked(CorrectCellF(v, range, noise, l, cx, cy), l, cx, cy)
    ensures MarksKept(v, CorrectCellF(v, range, noise, l, cx, cy))
    decreases range - l, 0
  {
    IndexInLayer(l, cx, cy);
    BaseMonotone(l + 1, range);
    var i := Index(l, cx, cy);
    if !v.marks[i] {
      var v1 := v.(marks := v.marks[i := true]);
      if l != range - 1 && noise != 0.0 {
        CorrectWindowMarks(v1, range, noise, l + 1, cx, cy, 9);
        var v2 := CorrectWindowF(v1, range, noise, l + 1, cx, cy, 9);
        SettleKeeps(v2, range, l, cx, cy);
      }
    }
  }

  /** After correcting the first `k` cells of a window, each of them is
      marked, and no mark was cleared. */
  lemma {:induction false} CorrectWindowMarks(v: ConeVal, range: nat, noise: real, l: nat, cx: int, cy: int, k: nat)
    requires Shaped(v, range) && l < range && WindowFits(l, cx, cy) && k <= 9
    ensures forall j :: 0 <= j < k ==> Marked(CorrectWindowF(v, range, noise, l, cx, cy, k), l, cx + j / 3, cy + j % 3)
    ensures MarksKept(v, CorrectWindowF(v, range, noise, l, cx, cy, k))
    decreases range - l, 1, k
  {
    if k > 0 {
      WindowCell(l, cx, cy, k - 1);
      CorrectWindowMarks(v, range, noise, l, cx, cy, k - 1);
      var v' := CorrectWindowF(v, range, noise, l, cx, cy, k - 1);
      CorrectCellMarks(v', range, noise, l, cx + (k - 1) / 3, cy + (k - 1) % 3);
      var r := CorrectWindowF(v, range, noise, l, cx, cy, k);
      forall j | 0 <= j < k
        ensures Marked(r, l, cx + j / 3, cy + j % 3)
      {
        WindowCell(l, cx, cy, j);
      }
    }
  }

  // ------------------------------------------------------------------
  // Frame
  // ------------------------------------------------------------------

  /** `correctCell(l, cx, cy)` leaves every newer layer alone and, in layer
      `l`, changes only the cell it was asked about. */
  lemma {:induction false} CorrectCellFrame(v: ConeVal, range: nat, noise: real, l: nat, cx: int, cy: int)
    requires Shaped(v, range) && l < range && InLayer(l, cx, cy)
    ensures forall i :: 0 <= i < Base(range) && i < Base(l + 1) && i != Index(l, cx, cy) ==>
        SameAt(v, CorrectCellF(v, range, noise, l, cx, cy), i)
    decreases range - l, 0
  {
    IndexInLayer(l, cx, cy);
    BaseMonotone(l + 1, range);
    var i := Index(l, cx, cy);
    if !v.marks[i] {
      var v1 := v.(marks := v.marks[i := true]);
      if l != range - 1 && noise != 0.0 {
        CorrectWindowFrame(v1, range, noise, l + 1, cx, cy, 9);
        var v2 := CorrectWindowF(v1, range, noise, l + 1, cx, cy, 9);
        SettleKeeps(v2, range, l, cx, cy);
        var r := Settle(v2, range, l, cx, cy);
        forall j | 0 <= j < Base(range) && j < Base(l + 1) && j != i
          ensures SameAt(v, r, j)
        {
          assert SameAt(v, v1, j) && SameAt(v1, v2, j) && SameAt(v2, r, j);
        }
      }
    }
  }

  /** Correcting cells of a window in layer `l` leaves layers newer than `l` alone. */
  lemma {:induction false} CorrectWindowFrame(v: ConeVal, range: nat, noise: real, l: nat, cx: int, cy: int, k: nat)
    requires Shaped(v, range) && l < range && WindowFits(l, cx, cy) && k <= 9
    ensures forall i :: 0 <= i < Base(range) && i < Base(l) ==> SameAt(v, CorrectWindowF(v, range, noise, l, cx, cy, k), i)
    decreases range - l, 1, k
  {
    BaseMonotone(l, range);
    if k > 0 {
      WindowCell(l, cx, cy, k - 1);
      CorrectWindowFrame(v, range, noise, l, cx, cy, k - 1);
      var v' := CorrectWindowF(v, range, noise, l, cx, cy, k - 1);
      CorrectCellFrame(v', range, noise, l, cx + (k - 1) / 3, cy + (k - 1) % 3);
      BaseMonotone(l + 1, range);
      var r := CorrectWindowF(v, range, noise, l, cx, cy, k);
      assert r == CorrectCellF(v', range, noise, l, cx + (k - 1) / 3, cy + (k - 1) % 3);
      forall j | 0 <= j < Base(range) && j < Base(l)
        ensures SameAt(v, r, j)
      {
        assert SameAt(v, v', j) && SameAt(v', r, j);
      }
    }
  }

  // ------------------------------------------------------------------
  // Weights
  // ------------------------------------------------------------------

  /** Correction keeps every confidence weight a probability. */
  lemma {:induction false} CorrectCellInUnit(v: ConeVal, range: nat, noise: real, l: nat, cx: int, cy: int)
    requires Shaped(v, range) && l < range && InLayer(l, cx, cy) && WeightsInUnit(v.weights)
    ensures WeightsInUnit(CorrectCellF(v, range, noise, l, cx, cy).weights)
    decreases range - l, 0
  {
    IndexInLayer(l, cx, cy);
    BaseMonotone(l + 1, range);
    var i := Index(l, cx, cy);
    if !v.marks[i] {
      var v1 := v.(marks := v.marks[i := true]);
      if l != range - 1 && noise != 0.0 {
        CorrectWindowInUnit(v1, range, noise, l + 1, cx, cy, 9);
        var v2 := CorrectWindowF(v1, range, noise, l + 1, cx, cy, 9);
        SettleKeeps(v2, range, l, cx, cy);
      }
    }
  }

  lemma {:induction false} CorrectWindowInUnit(v: ConeVal, range: nat, noise: real, l: nat, cx: int, cy: int, k: nat)
    requires Shaped(v, range) && l < range && WindowFits(l, cx, cy) && k <= 9 && WeightsInUnit(v.weights)
    ensures WeightsInUnit(CorrectWindowF(v, range, noise, l, cx, cy, k).weights)
    decreases range - l, 1, k
  {
    if k > 0 {
      WindowCell(l, cx, cy, k - 1);
      CorrectWindowInUnit(v, range, noise, l, cx, cy, k - 1);
      var v' := CorrectWindowF(v, range, noise, l, cx, cy, k - 1);
      CorrectCellInUnit(v', range, noise, l, cx + (k - 1) / 3, cy + (k - 1) % 3);
    }
  }

  // ------------------------------------------------------------------
  // A built cone reads the history's Life neighbourhoods
  // ------------------------------------------------------------------

  /** Cell `j` of the window with top-left local (x, y) in layer `l` of the
      cone centred on (cx, cy) is the history's cell at the matching offset
      around the window centre's torus position. */
  lemma WindowCellIsTorus(H: History, width: int, height: int, cx: int, cy: int, n: nat, l: nat, x: int, y: int, j: int)
    requires width > 0 && height > 0 && IsHistory(H, width, height) && l < n <= |H|
    requires WindowFits(l, x, y) && 0 <= j < 9
    ensures Base(l + 1) <= Base(n)
    ensures Window(BuiltStates(H, width, height, cx, cy, n), l, x, y)[j]
         == TorusAt(H[l], width, height, (cx - l + x) % width - 1 + j / 3, (cy - l + y) % height - 1 + j % 3)
  {
    BaseMonotone(l + 1, n);
    var s := BuiltStates(H, width, height, cx, cy, n);
    var a, b := j / 3, j % 3;
    WindowAt(s, l, x, y, j);
    BuiltStatesAt(H, width, height, cx, cy, n, l, x + a, y + b);
    assert cx - (l + 1) + (x + a) == cx - l + x + (a - 1);
    assert cy - (l + 1) + (y + b) == cy - l + y + (b - 1);
    TorusAtShift(H[l], width, height, cx - l + x, cy - l + y, a - 1, b - 1);
  }

  /** A window whose cell j is the torus cell at offset (j / 3 - 1, j % 3 - 1)
      from (a, b) steps by the Life rule on (a, b) and its eight neighbours. */
  lemma LifeOfNeighbourhood(ws: seq<bool>, g: Grid, width: int, height: int, a: int, b: int)
    requires width > 0 && height > 0 && IsGrid(g, width, height)
    requires 0 <= a < width && 0 <= b < height && |ws| == 9
    requires forall j :: 0 <= j < 9 ==> ws[j] == TorusAt(g, width, height, a - 1 + j / 3, b - 1 + j % 3)
    ensures LifeOf(ws) == LifeRule(g[a][b], LiveNeighbours(g, width, height, a, b))
  {
    LiveAroundIsSum(ws);
    assert ws[0] == TorusAt(g, width, height, a - 1, b - 1);
    assert ws[1] == TorusAt(g, width, height, a - 1, b);
    assert ws[2] == TorusAt(g, width, height, a - 1, b + 1);
    assert ws[3] == TorusAt(g, width, height, a, b - 1);
    assert ws[4] == TorusAt(g, width, height, a, b);
    assert ws[5] == TorusAt(g, width, height, a, b + 1);
    assert ws[6] == TorusAt(g, width, height, a + 1, b - 1);
    assert ws[7] == TorusAt(g, width, height, a + 1, b);
    assert ws[8] == TorusAt(g, width, height, a + 1, b + 1);
    RemainderUnique(a, width, 0, a);
    RemainderUnique(b, height, 0, b);
  }

  /** The Life rule on a window of a built cone is the Life rule on the
      history cell under the window's centre and its eight torus neighbours. */
  lemma WindowIsNeighbourhood(H: History, width: int, height: int, cx: int, cy: int, n: nat, l: nat, x: int, y: int)
    requires width > 0 && height > 0 && IsHistory(H, width, height) && l < n <= |H|
    requires WindowFits(l, x, y)
    ensures Base(l + 1) <= Base(n)
    ensures var a, b := (cx - l + x) % width, (cy - l + y) % height;
      LifeOf(Window(BuiltStates(H, width, height, cx, cy, n), l, x, y))
        == LifeRule(H[l][a][b], LiveNeighbours(H[l], width, height, a, b))
  {
    BaseMonotone(l + 1, n);
    var ws := Window(BuiltStates(H, width, height, cx, cy, n), l, x, y);
    var a, b := (cx - l + x) % width, (cy - l + y) % height;
    forall j | 0 <= j < 9
      ensures ws[j] == TorusAt(H[l], width, height, a - 1 + j / 3, b - 1 + j % 3)
    {
      WindowCellIsTorus(H, width, height, cx, cy, n, l, x, y, j);
    }
    LifeOfNeighbourhood(ws, H[l], width, height, a, b);
  }

  /** With no noise, the cone a cell builds steps it by ordinary Life: its
      own state and its eight torus neighbours in the newest layer. */
  lemma BuiltConeIsLife(H: History, width: int, height: int, noise: real, internalDistance: real, cx: int, cy: int)
    requires width > 0 && height > 0 && |H| >= 1 && IsHistory(H, width, height)
    requires 0 <= cx < width && 0 <= cy < height
    ensures ConeLife(Built(H, width, height, noise, internalDistance, cx, cy))
         == LifeRule(H[0][cx][cy], LiveNeighbours(H[0], width, height, cx, cy))
  {
    var n := ConeDepth(|H|, noise);
    WindowIsNeighbourhood(H, width, height, cx, cy, n, 0, 0, 0);
    RemainderUnique(cx, width, 0, cx);
    RemainderUnique(cy, height, 0, cy);
    assert Built(H, width, height, noise, internalDistance, cx, cy).states == BuiltStates(H, width, height, cx, cy, n);
  }

  // ------------------------------------------------------------------
  // Correction leaves a consistent, noise-free cone alone
  // ------------------------------------------------------------------

  /** Every history layer but the oldest is the Life successor of the one
      before it: what a noise-free run leaves behind. */
  predicate IsLifeRun(H: History, width: int, height: int)
    requires width > 0 && height > 0 && IsHistory(H, width, height)
  {
    forall l :: 0 <= l < |H| - 1 ==> H[l] == NextGeneration(H[l + 1], width, height)
  }

  /** Every reading of the first depth - 1 layers is what the Life rule
      predicts from its window one layer further back. */
  ghost predicate Consistent(s: seq<bool>, depth: nat)
  {
    forall l: nat, x: int, y: int ::
      l + 1 < depth && InLayer(l, x, y) && 0 <= Index(l, x, y) < |s| && Base(l + 2) <= |s| ==>
        s[Index(l, x, y)] == LifeOf(Window(s, l + 1, x, y))
  }

  /** A cone built from a Life run is consistent. */
  lemma BuiltConsistent(H: History, width: int, height: int, cx: int, cy: int, n: nat)
    requires width > 0 && height > 0 && IsHistory(H, width, height) && n <= |H| && IsLifeRun(H, width, height)
    ensures Consistent(BuiltStates(H, width, height, cx, cy, n), n)
  {
    var s := BuiltStates(H, width, height, cx, cy, n);
    forall l: nat, x: int, y: int |
      l + 1 < n && InLayer(l, x, y) && 0 <= Index(l, x, y) < |s| && Base(l + 2) <= |s|
      ensures s[Index(l, x, y)] == LifeOf(Window(s, l + 1, x, y))
    {
      assert H[l] == NextGeneration(H[l + 1], width, height);
      BuiltCellConsistent(H, width, height, cx, cy, n, l, x, y);
    }
  }

  lemma BuiltCellConsistent(H: History, width: int, height: int, cx: int, cy: int, n: nat, l: nat, x: int, y: int)
    requires width > 0 && height > 0 && IsHistory(H, width, height) && n <= |H|
    requires l + 1 < n && InLayer(l, x, y) && H[l] == NextGeneration(H[l + 1], width, height)
    ensures Base(l + 2) <= Base(n) && 0 <= Index(l, x, y) < Base(n)
    ensures BuiltStates(H, width, height, cx, cy, n)[Index(l, x, y)]
         == LifeOf(Window(BuiltStates(H, width, height, cx, cy, n), l + 1, x, y))
  {
    BaseMonotone(l + 2, n);
    var s := BuiltStates(H, width, height, cx, cy, n);
    var a, b := (cx - (l + 1) + x) % width, (cy - (l + 1) + y) % height;
    var p := LifeRule(H[l + 1][a][b], LiveNeighbours(H[l + 1], width, height, a, b));
    assert s[Index(l, x, y)] == p by {
      BuiltCellIsLifeStep(H, width, height, cx, cy, n, l, x, y);
    }
    WindowBehindIsNeighbourhood(H, width, height, cx, cy, n, l, x, y);
  }

  /** The window one layer behind cell (x, y) of layer `l` is that cell's
      neighbourhood in history layer l + 1. */
  lemma WindowBehindIsNeighbourhood(H: History, width: int, height: int, cx: int, cy: int, n: nat, l: nat, x: int, y: int)
    requires width > 0 && height > 0 && IsHistory(H, width, height) && n <= |H|
    requires l + 1 < n && InLayer(l, x, y)
    ensures Base(l + 2) <= Base(n)
    ensures var a, b := (cx - (l + 1) + x) % width, (cy - (l + 1) + y) % height;
      LifeOf(Window(BuiltStates(H, width, height, cx, cy, n), l + 1, x, y))
        == LifeRule(H[l + 1][a][b], LiveNeighbours(H[l + 1], width, height, a, b))
  {
    WindowIsNeighbourhood(H, width, height, cx, cy, n, l + 1, x, y);
  }

  /** In a Life run, a cone reading of layer `l` is the Life rule applied to
      the matching neighbourhood of layer l + 1. */
  lemma BuiltCellIsLifeStep(H: History, width: int, height: int, cx: int, cy: int, n: nat, l: nat, x: int, y: int)
    requires width > 0 && height > 0 && IsHistory(H, width, height) && n <= |H|
    requires l + 1 < n && InLayer(l, x, y) && H[l] == NextGeneration(H[l + 1], width, height)
    ensures 0 <= Index(l, x, y) < Base(n)
    ensures var a, b := (cx - (l + 1) + x) % width, (cy - (l + 1) + y) % height;
      BuiltStates(H, width, height, cx, cy, n)[Index(l, x, y)] == LifeRule(H[l + 1][a][b], LiveNeighbours(H[l + 1], width, height, a, b))
  {
    BuiltStatesAt(H, width, height, cx, cy, n, l, x, y);
    var a, b := (cx - (l + 1) + x) % width, (cy - (l + 1) + y) % height;
    NextGenerationAt(H[l + 1], width, height, a, b);
  }

  /** On a consistent cone `correctCell` changes no state: every prediction
      agrees with the reading it checks. */
  lemma {:induction false} CorrectCellKeepsStates(v: ConeVal, range: nat, noise: real, l: nat, cx: int, cy: int)
    requires Shaped(v, range) && l < range && InLayer(l, cx, cy) && Consistent(v.states, range)
    ensures CorrectCellF(v, range, noise, l, cx, cy).states == v.states
    decreases range - l, 0
  {
    IndexInLayer(l, cx, cy);
    BaseMonotone(l + 1, range);
    var i := Index(l, cx, cy);
    if !v.marks[i] {
      var v1 := v.(marks := v.marks[i := true]);
      if l != range - 1 && noise != 0.0 {
        CorrectWindowKeepsStates(v1, range, noise, l + 1, cx, cy, 9);
        var v2 := CorrectWindowF(v1, range, noise, l + 1, cx, cy, 9);
        BaseMonotone(l + 2, range);
        assert v2.states[i] == LifeOf(Window(v2.states, l + 1, cx, cy));
        assert Prediction(v2, l, cx, cy).state == v2.states[i];
      }
    }
  }

  lemma {:induction false} CorrectWindowKeepsStates(v: ConeVal, range: nat, noise: real, l: nat, cx: int, cy: int, k: nat)
    requires Shaped(v, range) && l < range && WindowFits(l, cx, cy) && k <= 9 && Consistent(v.states, range)
    ensures CorrectWindowF(v, range, noise, l, cx, cy, k).states == v.states
    decreases range - l, 1, k
  {
    if k > 0 {
      WindowCell(l, cx, cy, k - 1);
      CorrectWindowKeepsStates(v, range, noise, l, cx, cy, k - 1);
      var v' := CorrectWindowF(v, range, noise, l, cx, cy, k - 1);
      CorrectCellKeepsStates(v', range, noise, l, cx + (k - 1) / 3, cy + (k - 1) % 3);
    }
  }

  // ------------------------------------------------------------------
  // The verdict on one cell (RobustLife.java:486-529)
  // ------------------------------------------------------------------

  /** A window of layer `l` reads only slots at or beyond Base(l), so
      writing a newer layer leaves it alone. */
  lemma WindowAfterWrite<T>(s: seq<T>, i: int, t: T, l: nat, cx: int, cy: int)
    requires WindowFits(l, cx, cy) && Base(l + 1) <= |s| && 0 <= i < Base(l)
    ensures Window(s[i := t], l, cx, cy) == Window(s, l, cx, cy)
  {
    var a, b := Window(s[i := t], l, cx, cy), Window(s, l, cx, cy);
    forall j | 0 <= j < 9
      ensures a[j] == b[j]
    {
      WindowAt(s[i := t], l, cx, cy, j);
      WindowAt(s, l, cx, cy, j);
    }
  }

  /** The verdict `correctCell` reaches on a cell it has not yet visited,
      below the oldest layer, with noise on, stated against the prediction
      from the corrected history one layer back (p): a reading is replaced
      only by a strictly heavier prediction; a reading that keeps disagreeing
      with its history is kept untouched and is trusted at least as much;
      a reading that ends up agreeing is trusted at least as much as the
      prediction; and confidence in the cell never drops. */
  lemma CorrectCellVerdict(v: ConeVal, range: nat, noise: real, l: nat, cx: int, cy: int)
    requires Shaped(v, range) && l + 1 < range && InLayer(l, cx, cy) && WeightsInUnit(v.weights)
    requires noise != 0.0 && !Marked(v, l, cx, cy)
    ensures Base(l + 2) <= Base(range) && 0 <= Index(l, cx, cy) < Base(range)
    ensures var r, i := CorrectCellF(v, range, noise, l, cx, cy), Index(l, cx, cy);
      var p := Prediction(r, l, cx, cy);
      && (r.states[i] != v.states[i] ==> r.states[i] == p.state && r.weights[i] == p.weight && p.weight > v.weights[i])
      && (r.states[i] != p.state ==> r.states[i] == v.states[i] && r.weights[i] == v.weights[i] && v.weights[i] >= p.weight)
      && (r.states[i] == p.state ==> r.weights[i] >= p.weight)
      && r.weights[i] >= v.weights[i]
  {
    BaseMonotone(l + 2, range);
    BaseMonotone(l + 1, range);
    IndexInLayer(l, cx, cy);
    var i := Index(l, cx, cy);
    var v1 := v.(marks := v.marks[i := true]);
    CorrectWindowFrame(v1, range, noise, l + 1, cx, cy, 9);
    CorrectWindowInUnit(v1, range, noise, l + 1, cx, cy, 9);
    var v2 := CorrectWindowF(v1, range, noise, l + 1, cx, cy, 9);
    assert SameAt(v1, v2, i);
    var p := Prediction(v2, l, cx, cy);
    PredictionInUnit(v2, l, cx, cy);
    var c := Reading(v.states[i], v.weights[i]);
    AdjudicateProperties(c, p);
    var verdict := Adjudicate(c, p);
    var r := CorrectCellF(v, range, noise, l, cx, cy);
    assert r == Write(v2, i, verdict);
    assert r.states[i] == verdict.state && r.weights[i] == verdict.weight;
    WindowAfterWrite(v2.states, i, verdict.state, l + 1, cx, cy);
    WindowAfterWrite(v2.weights, i, verdict.weight, l + 1, cx, cy);
    assert Prediction(r, l, cx, cy) == p;
  }

  // ------------------------------------------------------------------
  // correctNoise (RobustLife.java:427-445)
  // ------------------------------------------------------------------

  /** Correcting a layer-0 cell other than the centre leaves the centre
      reading alone. */
  lemma CorrectCellKeepsCentre(v: ConeVal, range: nat, noise: real, x: int, y: int)
    requires Shaped(v, range) && range >= 1 && 0 <= x < 3 && 0 <= y < 3 && (x != 1 || y != 1)
    ensures Base(1) <= Base(range)
    ensures CorrectCellF(v, range, noise, 0, x, y).states[4] == v.states[4]
    ensures CorrectCellF(v, range, noise, 0, x, y).weights[4] == v.weights[4]
  {
    BaseMonotone(1, range);
    CorrectCellFrame(v, range, noise, 0, x, y);
    assert Index(0, x, y) == 3 * x + y;
    assert SameAt(v, CorrectCellF(v, range, noise, 0, x, y), 4);
  }

  /** Correcting the ring never touches the centre reading: the cell's own
      state and its confidence in it. */
  lemma {:induction false} CorrectRingKeepsCentre(v: ConeVal, range: nat, noise: real, k: nat)
    requires Shaped(v, range) && range >= 1 && k <= 9
    ensures Base(1) <= Base(range)
    ensures var r := CorrectRingF(v, range, noise, k); r.states[4] == v.states[4] && r.weights[4] == v.weights[4]
  {
    BaseMonotone(1, range);
    if k > 0 {
      CorrectRingKeepsCentre(v, range, noise, k - 1);
      if k - 1 != 4 {
        var v' := CorrectRingF(v, range, noise, k - 1);
        var x, y := (k - 1) / 3, (k - 1) % 3;
        assert 0 <= x < 3 && 0 <= y < 3 && 3 * x + y == k - 1;
        CorrectCellKeepsCentre(v', range, noise, x, y);
        assert CorrectRingF(v, range, noise, k) == CorrectCellF(v', range, noise, 0, x, y);
      }
    }
  }

  /** Correcting the ring keeps every weight a probability. */
  lemma {:induction false} CorrectRingInUnit(v: ConeVal, range: nat, noise: real, k: nat)
    requires Shaped(v, range) && range >= 1 && k <= 9 && WeightsInUnit(v.weights)
    ensures WeightsInUnit(CorrectRingF(v, range, noise, k).weights)
  {
    if k > 0 {
      CorrectRingInUnit(v, range, noise, k - 1);
      if k - 1 != 4 {
        CorrectCellInUnit(CorrectRingF(v, range, noise, k - 1), range, noise, 0, (k - 1) / 3, (k - 1) % 3);
      }
    }
  }

  /** Correcting the ring of a consistent cone changes no state. */
  lemma {:induction false} CorrectRingKeepsStates(v: ConeVal, range: nat, noise: real, k: nat)
    requires Shaped(v, range) && range >= 1 && k <= 9 && Consistent(v.states, range)
    ensures CorrectRingF(v, range, noise, k).states == v.states
  {
    if k > 0 {
      CorrectRingKeepsStates(v, range, noise, k - 1);
      if k - 1 != 4 {
        CorrectCellKeepsStates(CorrectRingF(v, range, noise, k - 1), range, noise, 0, (k - 1) / 3, (k - 1) % 3);
      }
    }
  }

  /** After the ring pass every one of the centre's eight neighbours seen so
      far is marked, and no mark was cleared. */
  lemma {:induction false} CorrectRingMarks(v: ConeVal, range: nat, noise: real, k: nat)
    requires Shaped(v, range) && range >= 1 && k <= 9
    ensures forall j :: 0 <= j < k && j != 4 ==> Marked(CorrectRingF(v, range, noise, k), 0, j / 3, j % 3)
    ensures MarksKept(v, CorrectRingF(v, range, noise, k))
  {
    if k > 0 {
      CorrectRingMarks(v, range, noise, k - 1);
      var v' := CorrectRingF(v, range, noise, k - 1);
      if k - 1 != 4 {
        CorrectCellMarks(v', range, noise, 0, (k - 1) / 3, (k - 1) % 3);
        var r := CorrectRingF(v, range, noise, k);
        assert r == CorrectCellF(v', range, noise, 0, (k - 1) / 3, (k - 1) % 3);
        forall j | 0 <= j < k && j != 4
          ensures Marked(r, 0, j / 3, j % 3)
        {
          if j < k - 1 {
            assert Marked(v', 0, j / 3, j % 3);
          }
        }
      }
    }
  }

  /** `correctNoise`: afterwards the centre reading is untouched, all eight
      neighbours have been visited, weights stay probabilities, and a
      consistent cone keeps every state. */
  lemma CorrectNoiseProperties(v: ConeVal, range: nat, noise: real)
    requires Shaped(v, range) && range >= 1
    ensures Base(1) <= Base(range)
    ensures CorrectNoiseF(v, range, noise).states[4] == v.states[4]
    ensures CorrectNoiseF(v, range, noise).weights[4] == v.weights[4]
    ensures forall j :: 0 <= j < 9 && j != 4 ==> Marked(CorrectNoiseF(v, range, noise), 0, j / 3, j % 3)
    ensures WeightsInUnit(v.weights) ==> WeightsInUnit(CorrectNoiseF(v, range, noise).weights)
    ensures Consistent(v.states, range) ==> CorrectNoiseF(v, range, noise).states == v.states
  {
    var c := ClearMarksF(v);
    CorrectRingKeepsCentre(c, range, noise, 9);
    CorrectRingMarks(c, range, noise, 9);
    if WeightsInUnit(v.weights) {
      CorrectRingInUnit(c, range, noise, 9);
    }
    if Consistent(v.states, range) {
      CorrectRingKeepsStates(c, range, noise, 9);
    }
  }

  // ------------------------------------------------------------------
  // Error correction is transparent when nothing went wrong
  // ------------------------------------------------------------------

  /** Draws that all fall below their readings' weights flip nothing. */
  lemma QuietNoise(v: ConeVal, rng: nat -> real, start: nat)
    requires |v.states| == |v.weights|
    requires forall i :: 0 <= i < |v.states| ==> rng(start + i) < v.weights[i]
    ensures AddNoiseF(v, rng, start).states == v.states
  {
    var r := AddNoiseF(v, rng, start);
    forall i | 0 <= i < |v.states|
      ensures r.states[i] == v.states[i]
    {
      AddNoiseEffect(v, rng, start, i);
    }
  }

  /** On a history that is a Life run, a noisy step in which no reading is
      misread (every draw falls below its reading's weight) produces exactly
      the ordinary Life successor of the cell: correction never damages a
      consistent light cone. */
  lemma NoiseFreeStepIsLife(H: History, width: int, height: int, noise: real, internalDistance: real,
                            cx: int, cy: int, rng: nat -> real, start: nat)
    requires width > 0 && height > 0 && |H| >= 1 && IsHistory(H, width, height) && IsLifeRun(H, width, height)
    requires noise > 0.0 && 0 <= cx < width && 0 <= cy < height
    requires forall i :: 0 <= i < Base(|H|) ==> rng(start + i) < BuiltWeights(noise, internalDistance, |H|)[i]
    ensures ConeDepth(|H|, noise) == |H|
    ensures ConeLife(CorrectNoiseF(AddNoiseF(Built(H, width, height, noise, internalDistance, cx, cy), rng, start), |H|, noise))
         == LifeRule(H[0][cx][cy], LiveNeighbours(H[0], width, height, cx, cy))
  {
    var v := Built(H, width, height, noise, internalDistance, cx, cy);
    QuietNoise(v, rng, start);
    var n := AddNoiseF(v, rng, start);
    BuiltConsistent(H, width, height, cx, cy, |H|);
    CorrectNoiseProperties(n, |H|, noise);
    var c := CorrectNoiseF(n, |H|, noise);
    assert c.states == v.states;
    BuiltConeIsLife(H, width, height, noise, internalDistance, cx, cy);
  }
}
