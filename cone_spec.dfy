/** The light cone as a value: what building, noising and correcting a cone
    computes, stated as pure functions over a snapshot of its three buffers.
    The `Cone` class is proved against these functions; the properties the
    design promises are proved about them. */
module ConeSpec {
  import opened Life
  import opened ConeLayout

  /** A snapshot of one cone: per reading its (possibly misread) state, its
      confidence weight and its "visited" mark, laid out as ConeLayout says. */
  datatype ConeVal = ConeVal(states: seq<bool>, weights: seq<real>, marks: seq<bool>)

  /** A reading together with the weight it is trusted with. */
  datatype Reading = Reading(state: bool, weight: real)

  /** The cone has `depth` layers. */
  predicate Shaped(v: ConeVal, depth: nat)
  {
    |v.states| == Base(depth) && |v.weights| == Base(depth) && |v.marks| == Base(depth)
  }

  predicate WeightsInUnit(w: seq<real>)
  {
    forall i :: 0 <= i < |w| ==> 0.0 <= w[i] <= 1.0
  }

  /** Slot `i` holds the same state, weight and mark in `a` and `b`. */
  predicate SameAt(a: ConeVal, b: ConeVal, i: int)
    requires 0 <= i < |a.states| && i < |a.weights| && i < |a.marks|
    requires i < |b.states| && i < |b.weights| && i < |b.marks|
  {
    a.states[i] == b.states[i] && a.weights[i] == b.weights[i] && a.marks[i] == b.marks[i]
  }

  /** Local cell (x, y) of layer `l` has been visited by the corrector. */
  predicate Marked(v: ConeVal, l: nat, x: int, y: int)
  {
    0 <= Index(l, x, y) < |v.marks| && v.marks[Index(l, x, y)]
  }

  // ------------------------------------------------------------------
  // Building a cone from the history (RobustLife.java:365-402)
  // ------------------------------------------------------------------

  /** The automaton's history as a value: H[layer][x][y], layer 0 newest. */
  type History = seq<seq<seq<bool>>>

  predicate IsHistory(H: History, width: int, height: int)
  {
    forall l :: 0 <= l < |H| ==> IsGrid(H[l], width, height)
  }

  /** Number of layers a cone materialises: a deeper layer is built only while
      the layer is below range - 1 and the noise is positive. */
  function ConeDepth(range: int, noise: real): (n: nat)
    requires range >= 1
    ensures 1 <= n <= range
    ensures n == range <==> (noise > 0.0 || range == 1)
  {
    if noise > 0.0 then range else 1
  }

  /** Manhattan distance of local (x, y) from the window centre (d2, d2). */
  function Manhattan(d2: int, x: int, y: int): nat
  {
    (if x < d2 then d2 - x else x - d2) + (if y < d2 then d2 - y else y - d2)
  }

  /** Confidence in a reading: one minus the noise times its distance from
      the centre plus the internal distance, floored at zero. */
  function Weight(noise: real, internalDistance: real, d2: int, x: int, y: int): real
  {
    var raw := 1.0 - noise * (Manhattan(d2, x, y) as real + internalDistance);
    if raw < 0.0 then 0.0 else raw
  }

  /** With a non-negative noise and internal distance every weight is a
      probability; nothing caps it at one otherwise. */
  lemma WeightBounds(noise: real, internalDistance: real, d2: int, x: int, y: int)
    requires noise >= 0.0 && internalDistance >= 0.0
    ensures 0.0 <= Weight(noise, internalDistance, d2, x, y) <= 1.0
  {
    assert noise * (Manhattan(d2, x, y) as real + internalDistance) >= 0.0;
  }

  /** Farther readings are trusted no more than nearer ones. */
  lemma WeightFallsWithDistance(noise: real, internalDistance: real, d2: int, x: int, y: int, x': int, y': int)
    requires noise >= 0.0
    requires Manhattan(d2, x, y) <= Manhattan(d2, x', y')
    ensures Weight(noise, internalDistance, d2, x', y') <= Weight(noise, internalDistance, d2, x, y)
  {
    var a := Manhattan(d2, x, y) as real + internalDistance;
    var b := Manhattan(d2, x', y') as real + internalDistance;
    assert noise * (b - a) >= 0.0;
    assert noise * b >= noise * a;
  }

  /** The readings of layer `l` of the cone centred on (cx, cy), row by row:
      local (x, y) reads history layer `l` at (cx - (l+1) + x, cy - (l+1) + y)
      on the torus. */
  function LayerStates(H: History, width: int, height: int, cx: int, cy: int, l: nat): (s: seq<bool>)
    requires width > 0 && height > 0 && IsHistory(H, width, height) && l < |H|
    ensures |s| == Dim(l) * Dim(l)
  {
    var d := Dim(l);
    seq(d * d, j requires 0 <= j < d * d =>
      TorusAt(H[l], width, height, cx - (l + 1) + j / d, cy - (l + 1) + j % d))
  }

  /** The weights of layer `l`, row by row. */
  function LayerWeights(noise: real, internalDistance: real, l: nat): (s: seq<real>)
    ensures |s| == Dim(l) * Dim(l)
  {
    var d := Dim(l);
    seq(d * d, j requires 0 <= j < d * d => Weight(noise, internalDistance, l + 1, j / d, j % d))
  }

  /** States of the first `n` layers, one after the other. */
  function BuiltStates(H: History, width: int, height: int, cx: int, cy: int, n: nat): (s: seq<bool>)
    requires width > 0 && height > 0 && IsHistory(H, width, height) && n <= |H|
    ensures |s| == Base(n)
  {
    if n == 0 then [] else BuiltStates(H, width, height, cx, cy, n - 1) + LayerStates(H, width, height, cx, cy, n - 1)
  }

  /** Weights of the first `n` layers, one after the other. */
  function BuiltWeights(noise: real, internalDistance: real, n: nat): (s: seq<real>)
    ensures |s| == Base(n)
  {
    if n == 0 then [] else BuiltWeights(noise, internalDistance, n - 1) + LayerWeights(noise, internalDistance, n - 1)
  }

  /** The cone a fresh `Cone(cx, cy)` holds: ConeDepth layers, no marks. */
  function Built(H: History, width: int, height: int, noise: real, internalDistance: real, cx: int, cy: int): (v: ConeVal)
    requires width > 0 && height > 0 && |H| >= 1 && IsHistory(H, width, height)
    ensures Shaped(v, ConeDepth(|H|, noise))
  {
    var n := ConeDepth(|H|, noise);
    ConeVal(BuiltStates(H, width, height, cx, cy, n), BuiltWeights(noise, internalDistance, n), seq(Base(n), _ => false))
  }

  /** Local (x, y) of layer `l` holds history layer `l` at
      ((cx - (l+1) + x) mod width, (cy - (l+1) + y) mod height). */
  lemma {:induction false} BuiltStatesAt(H: History, width: int, height: int, cx: int, cy: int, n: nat, l: nat, x: int, y: int)
    requires width > 0 && height > 0 && IsHistory(H, width, height) && n <= |H|
    requires l < n && InLayer(l, x, y)
    ensures 0 <= Index(l, x, y) < Base(n)
    ensures BuiltStates(H, width, height, cx, cy, n)[Index(l, x, y)]
         == H[l][(cx - (l + 1) + x) % width][(cy - (l + 1) + y) % height]
  {
    IndexInLayer(l, x, y);
    BaseMonotone(l + 1, n);
    if l == n - 1 {
      LayerStatesAt(H, width, height, cx, cy, l, x, y);
      assert Index(l, x, y) == Base(n - 1) + (x * Dim(l) + y);
    } else {
      BuiltStatesAt(H, width, height, cx, cy, n - 1, l, x, y);
    }
  }

  lemma LayerStatesAt(H: History, width: int, height: int, cx: int, cy: int, l: nat, x: int, y: int)
    requires width > 0 && height > 0 && IsHistory(H, width, height) && l < |H|
    requires InLayer(l, x, y)
    ensures 0 <= x * Dim(l) + y < Dim(l) * Dim(l)
    ensures LayerStates(H, width, height, cx, cy, l)[x * Dim(l) + y]
         == H[l][(cx - (l + 1) + x) % width][(cy - (l + 1) + y) % height]
  {
    RowMajorDecode(x, y, Dim(l));
    RowMajorBound(x, y, Dim(l));
  }

  /** Local (x, y) of layer `l` is weighted by its distance from the layer's
      centre (l + 1, l + 1). */
  lemma {:induction false} BuiltWeightsAt(noise: real, internalDistance: real, n: nat, l: nat, x: int, y: int)
    requires l < n && InLayer(l, x, y)
    ensures 0 <= Index(l, x, y) < Base(n)
    ensures BuiltWeights(noise, internalDistance, n)[Index(l, x, y)] == Weight(noise, internalDistance, l + 1, x, y)
  {
    IndexInLayer(l, x, y);
    BaseMonotone(l + 1, n);
    if l == n - 1 {
      LayerWeightsAt(noise, internalDistance, l, x, y);
      assert Index(l, x, y) == Base(n - 1) + (x * Dim(l) + y);
    } else {
      BuiltWeightsAt(noise, internalDistance, n - 1, l, x, y);
    }
  }

  lemma LayerWeightsAt(noise: real, internalDistance: real, l: nat, x: int, y: int)
    requires InLayer(l, x, y)
    ensures 0 <= x * Dim(l) + y < Dim(l) * Dim(l)
    ensures LayerWeights(noise, internalDistance, l)[x * Dim(l) + y] == Weight(noise, internalDistance, l + 1, x, y)
  {
    RowMajorDecode(x, y, Dim(l));
    RowMajorBound(x, y, Dim(l));
  }

  /** Every weight of a freshly built cone lies in [0, 1]. */
  lemma {:induction false} BuiltWeightsInUnit(noise: real, internalDistance: real, n: nat)
    requires noise >= 0.0 && internalDistance >= 0.0
    ensures WeightsInUnit(BuiltWeights(noise, internalDistance, n))
  {
    if n > 0 {
      BuiltWeightsInUnit(noise, internalDistance, n - 1);
      var d := Dim(n - 1);
      var lw := LayerWeights(noise, internalDistance, n - 1);
      forall j | 0 <= j < |lw|
        ensures 0.0 <= lw[j] <= 1.0
      {
        WeightBounds(noise, internalDistance, n, j / d, j % d);
      }
    }
  }

  // ------------------------------------------------------------------
  // Noise (RobustLife.java:405-424)
  // ------------------------------------------------------------------

  /** A reading after one draw: flipped exactly when the draw reaches its weight. */
  function Noisy(state: bool, weight: real, draw: real): bool
  {
    if draw >= weight then !state else state
  }

  /** With draws in [0, 1), a fully trusted reading never flips and an
      untrusted one always does. */
  lemma NoisyExtremes(state: bool, weight: real, draw: real)
    requires 0.0 <= draw < 1.0
    ensures weight == 1.0 ==> Noisy(state, weight, draw) == state
    ensures weight == 0.0 ==> Noisy(state, weight, draw) == !state
  {
  }

  /** Noise over the whole cone: reading `i` meets draw number start + i. */
  function AddNoiseF(v: ConeVal, rng: nat -> real, start: nat): (r: ConeVal)
    ensures |r.states| == |v.states| && r.weights == v.weights && r.marks == v.marks
  {
    v.(states := seq(|v.states|, i requires 0 <= i < |v.states| =>
      if i < |v.weights| then Noisy(v.states[i], v.weights[i], rng(start + i)) else v.states[i]))
  }

  /** Noise changes states only: weights and marks are kept, and each state
      flips exactly where its draw is at least its weight. */
  lemma AddNoiseEffect(v: ConeVal, rng: nat -> real, start: nat, i: int)
    requires |v.states| == |v.weights| && 0 <= i < |v.states|
    ensures |AddNoiseF(v, rng, start).states| == |v.states|
    ensures AddNoiseF(v, rng, start).weights == v.weights && AddNoiseF(v, rng, start).marks == v.marks
    ensures AddNoiseF(v, rng, start).states[i] != v.states[i] <==> rng(start + i) >= v.weights[i]
  {
  }

  // ------------------------------------------------------------------
  // The 3x3 window of the corrector and of Cone.step (RobustLife.java:486-514, 533-561)
  // ------------------------------------------------------------------

  /** The 3x3 window with top-left local (cx, cy) lies inside layer `l`. */
  predicate WindowFits(l: nat, cx: int, cy: int)
  {
    0 <= cx && cx + 2 < Dim(l) && 0 <= cy && cy + 2 < Dim(l)
  }

  lemma WindowCell(l: nat, cx: int, cy: int, j: int)
    requires WindowFits(l, cx, cy) && 0 <= j < 9
    ensures InLayer(l, cx + j / 3, cy + j % 3)
    ensures Base(l) <= Index(l, cx + j / 3, cy + j % 3) < Base(l + 1)
  {
    IndexInLayer(l, cx + j / 3, cy + j % 3);
  }

  /** The first `k` cells of the 3x3 window with top-left local (cx, cy) of
      layer `l`, in the order the source visits them (x outer, y inner). */
  function WindowUpTo<T>(s: seq<T>, l: nat, cx: int, cy: int, k: nat): (ws: seq<T>)
    requires WindowFits(l, cx, cy) && Base(l + 1) <= |s| && k <= 9
    ensures |ws| == k
  {
    if k == 0 then []
    else
      WindowCell(l, cx, cy, k - 1);
      WindowUpTo(s, l, cx, cy, k - 1) + [s[Index(l, cx + (k - 1) / 3, cy + (k - 1) % 3)]]
  }

  /** The whole window; its centre is cell 4. */
  function Window<T>(s: seq<T>, l: nat, cx: int, cy: int): (ws: seq<T>)
    requires WindowFits(l, cx, cy) && Base(l + 1) <= |s|
    ensures |ws| == 9
  {
    WindowUpTo(s, l, cx, cy, 9)
  }

  lemma {:induction false} WindowUpToAt<T>(s: seq<T>, l: nat, cx: int, cy: int, k: nat, j: int)
    requires WindowFits(l, cx, cy) && Base(l + 1) <= |s| && 0 <= j < k <= 9
    ensures InLayer(l, cx + j / 3, cy + j % 3)
    ensures Base(l) <= Index(l, cx + j / 3, cy + j % 3) < Base(l + 1)
    ensures WindowUpTo(s, l, cx, cy, k)[j] == s[Index(l, cx + j / 3, cy + j % 3)]
  {
    WindowCell(l, cx, cy, j);
    if j < k - 1 {
      WindowUpToAt(s, l, cx, cy, k - 1, j);
    }
  }

  /** Window cell `j` is local (cx + j / 3, cy + j % 3) of layer `l`. */
  lemma WindowAt<T>(s: seq<T>, l: nat, cx: int, cy: int, j: int)
    requires WindowFits(l, cx, cy) && Base(l + 1) <= |s| && 0 <= j < 9
    ensures InLayer(l, cx + j / 3, cy + j % 3)
    ensures Base(l) <= Index(l, cx + j / 3, cy + j % 3) < Base(l + 1)
    ensures Window(s, l, cx, cy)[j] == s[Index(l, cx + j / 3, cy + j % 3)]
  {
    WindowCell(l, cx, cy, j);
    WindowUpToAt(s, l, cx, cy, 9, j);
  }

  /** Window cell 3x + y is local (cx + x, cy + y): the order of the
      source's nested x, y loops. */
  lemma WindowSlot<T>(s: seq<T>, l: nat, cx: int, cy: int, x: int, y: int)
    requires WindowFits(l, cx, cy) && Base(l + 1) <= |s| && 0 <= x < 3 && 0 <= y < 3
    ensures 0 <= Index(l, cx + x, cy + y) < |s|
    ensures Window(s, l, cx, cy)[3 * x + y] == s[Index(l, cx + x, cy + y)]
  {
    RowMajorDecode(x, y, 3);
    WindowAt(s, l, cx, cy, 3 * x + y);
  }

  /** Live readings among the first `k` window cells, skipping the centre. */
  function CountUpTo(ws: seq<bool>, k: nat): (n: nat)
    requires k <= 9 <= |ws|
    ensures n <= if k > 4 then k - 1 else k
  {
    if k == 0 then 0 else CountUpTo(ws, k - 1) + (if k - 1 != 4 && ws[k - 1] then 1 else 0)
  }

  /** The evidence weight after the first `k` window cells: the centre's
      weight times the weights of the non-centre cells seen so far. */
  function WeightUpTo(ws: seq<real>, k: nat): real
    requires k <= 9 <= |ws|
  {
    if k == 0 then ws[4]
    else if k - 1 == 4 then WeightUpTo(ws, k - 1)
    else WeightUpTo(ws, k - 1) * ws[k - 1]
  }

  /** One more non-centre cell: one more possible count. */
  lemma CountStep(ws: seq<bool>, k: nat, c: nat, alive: bool)
    requires k < 9 <= |ws| && k != 4 && c == CountUpTo(ws, k) && alive == ws[k]
    ensures CountUpTo(ws, k + 1) == if alive then c + 1 else c
  {
  }

  /** The running product of the source's loop, one factor on. */
  lemma WeightStep(ww: seq<real>, k: nat, w: real, c: real)
    requires k < 9 <= |ww| && k != 4 && w == WeightUpTo(ww, k) && c == ww[k]
    ensures w * c == WeightUpTo(ww, k + 1)
  {
  }

  /** The live neighbours of the window's centre. */
  function LiveAround(ws: seq<bool>): (n: nat)
    requires |ws| == 9
    ensures n <= 8
  {
    CountUpTo(ws, 9)
  }

  /** The count is the number of live cells among the eight around the centre. */
  lemma LiveAroundIsSum(ws: seq<bool>)
    requires |ws| == 9
    ensures LiveAround(ws) == Bit(ws[0]) + Bit(ws[1]) + Bit(ws[2]) + Bit(ws[3])
                            + Bit(ws[5]) + Bit(ws[6]) + Bit(ws[7]) + Bit(ws[8])
  {
    assert CountUpTo(ws, 2) == Bit(ws[0]) + Bit(ws[1]);
    assert CountUpTo(ws, 4) == Bit(ws[0]) + Bit(ws[1]) + Bit(ws[2]) + Bit(ws[3]);
    assert CountUpTo(ws, 6) == CountUpTo(ws, 4) + Bit(ws[5]);
    assert CountUpTo(ws, 8) == CountUpTo(ws, 6) + Bit(ws[6]) + Bit(ws[7]);
  }

  /** The evidence weight is the product of all nine window weights. */
  lemma WindowWeightIsProduct(ws: seq<real>)
    requires |ws| == 9
    ensures WeightUpTo(ws, 9) == ws[4] * ws[0] * ws[1] * ws[2] * ws[3] * ws[5] * ws[6] * ws[7] * ws[8]
  {
    assert WeightUpTo(ws, 1) == ws[4] * ws[0];
    assert WeightUpTo(ws, 2) == WeightUpTo(ws, 1) * ws[1];
    assert WeightUpTo(ws, 3) == WeightUpTo(ws, 2) * ws[2];
    assert WeightUpTo(ws, 4) == WeightUpTo(ws, 3) * ws[3];
    assert WeightUpTo(ws, 6) == WeightUpTo(ws, 4) * ws[5];
    assert WeightUpTo(ws, 7) == WeightUpTo(ws, 6) * ws[6];
    assert WeightUpTo(ws, 8) == WeightUpTo(ws, 7) * ws[7];
  }

  /** Evidence built from probabilities is a probability. */
  lemma {:induction false} WeightUpToInUnit(ws: seq<real>, k: nat)
    requires k <= 9 <= |ws| && WeightsInUnit(ws)
    ensures 0.0 <= WeightUpTo(ws, k) <= 1.0
  {
    if k > 0 {
      WeightUpToInUnit(ws, k - 1);
      if k - 1 != 4 {
        UnitProduct(WeightUpTo(ws, k - 1), ws[k - 1]);
      }
    }
  }

  /** A product of two probabilities is a probability, no larger than either. */
  lemma UnitProduct(a: real, b: real)
    requires 0.0 <= a <= 1.0 && 0.0 <= b <= 1.0
    ensures 0.0 <= a * b <= a && a * b <= b
  {
    NonNegativeProduct(a, b);
    NonNegativeProduct(1.0 - a, b);
    NonNegativeProduct(a, 1.0 - b);
  }

  lemma NonNegativeProduct(a: real, b: real)
    requires a >= 0.0 && b >= 0.0
    ensures a * b >= 0.0
  {
  }

  /** The window of a cone whose weights are probabilities holds probabilities. */
  lemma WindowInUnit(w: seq<real>, l: nat, cx: int, cy: int)
    requires WindowFits(l, cx, cy) && Base(l + 1) <= |w| && WeightsInUnit(w)
    ensures WeightsInUnit(Window(w, l, cx, cy))
  {
    var ws := Window(w, l, cx, cy);
    forall j | 0 <= j < |ws|
      ensures 0.0 <= ws[j] <= 1.0
    {
      WindowAt(w, l, cx, cy, j);
    }
  }

  /** The Life rule applied to the centre of a 3x3 window. */
  function LifeOf(ws: seq<bool>): bool
    requires |ws| == 9
  {
    LifeRule(ws[4], LiveAround(ws))
  }

  /** What Cone.step computes: the Life rule on the layer-0 3x3 window. */
  function ConeLife(v: ConeVal): bool
    requires |v.states| >= Base(1)
  {
    LifeOf(Window(v.states, 0, 0, 0))
  }

  // ------------------------------------------------------------------
  // Adjudication (RobustLife.java:516-529)
  // ------------------------------------------------------------------

  /** The corrector's verdict on a reading given a prediction from history:
      on disagreement the strictly heavier one wins; on agreement the
      weights are fused as for independent evidence. */
  function Adjudicate(current: Reading, predicted: Reading): Reading
  {
    if predicted.state != current.state then
      if predicted.weight > current.weight then predicted else current
    else
      Reading(current.state, Fused(predicted.weight, current.weight))
  }

  /** Confidence from two independent agreeing sources: the chance that not
      both are wrong. */
  function Fused(a: real, b: real): real
  {
    1.0 - (1.0 - a) * (1.0 - b)
  }

  /** The verdict keeps weights in [0, 1] and never lowers confidence in the
      current reading; the reading is replaced only by a strictly heavier
      prediction; a reading that still disagrees is kept as it was and is
      at least as heavy; agreement leaves a weight at least that of either. */
  lemma AdjudicateProperties(current: Reading, predicted: Reading)
    requires 0.0 <= current.weight <= 1.0 && 0.0 <= predicted.weight <= 1.0
    ensures var r := Adjudicate(current, predicted);
      && 0.0 <= r.weight <= 1.0
      && r.weight >= current.weight
      && (r.state != current.state ==> r == predicted && predicted.weight > current.weight)
      && (r.state != predicted.state ==> r == current && current.weight >= predicted.weight)
      && (r.state == predicted.state ==> r.weight >= predicted.weight)
  {
    var r := Adjudicate(current, predicted);
    if predicted.state == current.state {
      FusedWeightBounds(predicted.weight, current.weight);
      assert r == Reading(current.state, Fused(predicted.weight, current.weight));
    } else if predicted.weight > current.weight {
      assert r == predicted;
    } else {
      assert r == current;
    }
  }

  /** Probabilistic union of two independent confidences stays in [0, 1] and
      is at least either of them. */
  lemma FusedWeightBounds(a: real, b: real)
    requires 0.0 <= a <= 1.0 && 0.0 <= b <= 1.0
    ensures 0.0 <= Fused(a, b) <= 1.0 && Fused(a, b) >= a && Fused(a, b) >= b
  {
    NonNegativeProduct(1.0 - a, b);
    NonNegativeProduct(a, 1.0 - b);
    NonNegativeProduct(1.0 - a, 1.0 - b);
    assert Fused(a, b) == a + (1.0 - a) * b;
    assert Fused(a, b) == b + a * (1.0 - b);
  }

  // ------------------------------------------------------------------
  // Correction (RobustLife.java:427-530)
  // ------------------------------------------------------------------

  /** What the Life rule predicts for cell (cx, cy) of layer `l` from the 3x3
      window of layer l + 1 around local (cx + 1, cy + 1): the rule's verdict,
      weighted by the product of the nine window weights. */
  function Prediction(v: ConeVal, l: nat, cx: int, cy: int): Reading
    requires InLayer(l, cx, cy) && Base(l + 2) <= |v.states| && Base(l + 2) <= |v.weights|
  {
    Reading(LifeOf(Window(v.states, l + 1, cx, cy)), WeightUpTo(Window(v.weights, l + 1, cx, cy), 9))
  }

  /** A prediction from probabilities carries a probability. */
  lemma PredictionInUnit(v: ConeVal, l: nat, cx: int, cy: int)
    requires InLayer(l, cx, cy) && Base(l + 2) <= |v.states| && Base(l + 2) <= |v.weights|
    requires WeightsInUnit(v.weights)
    ensures 0.0 <= Prediction(v, l, cx, cy).weight <= 1.0
  {
    WindowInUnit(v.weights, l + 1, cx, cy);
    WeightUpToInUnit(Window(v.weights, l + 1, cx, cy), 9);
  }

  /** Compare cell (cx, cy) of layer `l` with its prediction and write the
      verdict back. */
  function Settle(v: ConeVal, depth: nat, l: nat, cx: int, cy: int): (r: ConeVal)
    requires Shaped(v, depth) && l + 1 < depth && InLayer(l, cx, cy)
    ensures Shaped(r, depth)
  {
    IndexInLayer(l, cx, cy);
    BaseMonotone(l + 1, depth);
    BaseMonotone(l + 2, depth);
    var i := Index(l, cx, cy);
    Write(v, i, Adjudicate(Reading(v.states[i], v.weights[i]), Prediction(v, l, cx, cy)))
  }

  /** Slot `i` overwritten with reading `r`; marks untouched. */
  function Write(v: ConeVal, i: int, r: Reading): (v': ConeVal)
    requires 0 <= i < |v.states| && i < |v.weights|
    ensures |v'.states| == |v.states| && |v'.weights| == |v.weights| && v'.marks == v.marks
    ensures v'.states[i] == r.state && v'.weights[i] == r.weight
  {
    v.(states := v.states[i := r.state], weights := v.weights[i := r.weight])
  }

  /** `correctCell(l, cx, cy)`: a visited cell is left alone; otherwise it is
      marked, and unless it is in the oldest layer (or noise is off) the 3x3
      window of the next layer is corrected first, depth first, and the cell
      is then settled against it. */
  function CorrectCellF(v: ConeVal, range: nat, noise: real, l: nat, cx: int, cy: int): (r: ConeVal)
    requires Shaped(v, range) && l < range && InLayer(l, cx, cy)
    ensures Shaped(r, range)
    decreases range - l, 0
  {
    IndexInLayer(l, cx, cy);
    BaseMonotone(l + 1, range);
    var i := Index(l, cx, cy);
    if v.marks[i] then v
    else
      var v1 := v.(marks := v.marks[i := true]);
      if l == range - 1 || noise == 0.0 then v1
      else
        var v2 := CorrectWindowF(v1, range, noise, l + 1, cx, cy, 9);
        Settle(v2, range, l, cx, cy)
  }

  /** The first `k` cells (x outer, y inner) of the 3x3 window with top-left
      (cx, cy) in layer `l`, each corrected in turn. */
  function CorrectWindowF(v: ConeVal, range: nat, noise: real, l: nat, cx: int, cy: int, k: nat): (r: ConeVal)
    requires Shaped(v, range) && l < range && WindowFits(l, cx, cy) && k <= 9
    ensures Shaped(r, range)
    decreases range - l, 1, k
  {
    if k == 0 then v
    else
      WindowCell(l, cx, cy, k - 1);
      var v' := CorrectWindowF(v, range, noise, l, cx, cy, k - 1);
      CorrectCellF(v', range, noise, l, cx + (k - 1) / 3, cy + (k - 1) % 3)
  }

  /** One more window cell, in the source's x-outer, y-inner order. */
  lemma CorrectWindowNext(v: ConeVal, range: nat, noise: real, l: nat, cx: int, cy: int, x: int, y: int)
    requires Shaped(v, range) && l < range && WindowFits(l, cx, cy) && 0 <= x < 3 && 0 <= y < 3
    ensures InLayer(l, cx + x, cy + y)
    ensures CorrectWindowF(v, range, noise, l, cx, cy, 3 * x + y + 1)
         == CorrectCellF(CorrectWindowF(v, range, noise, l, cx, cy, 3 * x + y), range, noise, l, cx + x, cy + y)
  {
    RowMajorDecode(x, y, 3);
    WindowCell(l, cx, cy, 3 * x + y);
  }

  /** Settling changes only its own cell, keeps the marks, and keeps weights
      in [0, 1]. */
  lemma SettleKeeps(v: ConeVal, depth: nat, l: nat, cx: int, cy: int)
    requires Shaped(v, depth) && l + 1 < depth && InLayer(l, cx, cy)
    ensures Settle(v, depth, l, cx, cy).marks == v.marks
    ensures forall i :: 0 <= i < Base(depth) && i != Index(l, cx, cy) ==> SameAt(v, Settle(v, depth, l, cx, cy), i)
    ensures WeightsInUnit(v.weights) ==> WeightsInUnit(Settle(v, depth, l, cx, cy).weights)
  {
    IndexInLayer(l, cx, cy);
    BaseMonotone(l + 2, depth);
    if WeightsInUnit(v.weights) {
      var i := Index(l, cx, cy);
      PredictionInUnit(v, l, cx, cy);
      AdjudicateProperties(Reading(v.states[i], v.weights[i]), Prediction(v, l, cx, cy));
    }
  }

  /** Visit marks all cleared, in every layer. */
  function ClearMarksF(v: ConeVal): (r: ConeVal)
  {
    v.(marks := seq(|v.marks|, _ => false))
  }

  /** The first `k` cells of layer 0's 3x3 window, skipping the centre, each
      corrected in turn. */
  function CorrectRingF(v: ConeVal, range: nat, noise: real, k: nat): (r: ConeVal)
    requires Shaped(v, range) && range >= 1 && k <= 9
    ensures Shaped(r, range)
  {
    if k == 0 then v
    else
      var v' := CorrectRingF(v, range, noise, k - 1);
      if k - 1 == 4 then v' else CorrectCellF(v', range, noise, 0, (k - 1) / 3, (k - 1) % 3)
  }

  /** One more ring cell, in the source's x-outer, y-inner order; the centre
      is skipped. */
  lemma CorrectRingNext(v: ConeVal, range: nat, noise: real, x: int, y: int)
    requires Shaped(v, range) && range >= 1 && 0 <= x < 3 && 0 <= y < 3
    ensures CorrectRingF(v, range, noise, 3 * x + y + 1)
         == if x == 1 && y == 1 then CorrectRingF(v, range, noise, 3 * x + y)
            else CorrectCellF(CorrectRingF(v, range, noise, 3 * x + y), range, noise, 0, x, y)
  {
    RowMajorDecode(x, y, 3);
  }

  /** `correctNoise`: clear every mark, then correct the eight neighbours of
      the centre cell. */
  function CorrectNoiseF(v: ConeVal, range: nat, noise: real): (r: ConeVal)
    requires Shaped(v, range) && range >= 1
    ensures Shaped(r, range)
  {
    CorrectRingF(ClearMarksF(v), range, noise, 9)
  }
}
