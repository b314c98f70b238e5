# RobustLife in Dafny

RobustLife is Conway's Game of Life on a torus. It is built to survive noisy
neighbour readings. The automaton keeps `range` generations of history:
layer 0 is the newest generation and layer `range - 1` the oldest. Before
each step, every cell builds a "light cone" over that history. Layer `l` of
the cone is the `(2l + 3) x (2l + 3)` window of history layer `l` around the
cell, read with toroidal wrap-around. Each reading carries a confidence
weight, `1 - noise * (distance + internalDistance)`, clamped at 0.

Once the settle countdown `synchCount` has reached 0 and the noise is on, a
step does more than apply the Life rule:

- each reading is flipped wherever a random draw is at least its weight;
- the corrector then works depth first through the cone. It predicts every
  cell of a layer by the Life rule applied to the next older, wider layer;
- on disagreement the heavier side wins, and on agreement the two weights
  are fused;
- finally the Life rule is applied to the corrected 3x3 centre window.

Toggling a cell or loading a file restarts the countdown.

The modules follow the source:

- `Life` (`life.dfy`): the Life rule, toroidal neighbour counts, and the
  wrap-around loops.
- `ConeLayout` (`cone_layout.dfy`): one cone is kept as one flat sequence.
  Layer `l`, local `(x, y)` sits at `Base(l) + x * Dim(l) + y`, where
  `Dim(l) = 2l + 3`. The source's chain of `nextLayer` objects becomes this
  layout.
- `ConeSpec` (`cone_spec.dfy`): the cone as a value (`ConeVal`), and the pure
  functions that say what building, noising and correcting a cone
  compute. `correctCell` becomes the mutually recursive
  `CorrectCellF` / `CorrectWindowF`.
- `ConeProperties` (`cone_props.dfy`): what the corrector promises, proved
  about those functions. The main result is `NoiseFreeStepIsLife`: on a
  history that is a Life run, with no reading flipped, correction followed
  by the step is exactly Life.
- `Cones` (`cone.dfy`): the `Cone` inner class, with three arrays (`states`,
  `weights`, `marks`) that its methods update in place. Every method is
  proved to compute its function from `ConeSpec`.
- `AutomatonSpec` (`automaton_spec.dfy`): the automaton as a value, and what
  `step`, `clear` and the toggle compute.
- `Loading` (`load.dfy`): the checks `load` makes on a file that has already
  been split into lines, and what the file sets.
- `Automata` (`automaton.dfy`): the `RobustLife` class, with the
  `cells[range][width][height]` array and the fields that the source's
  methods change.

The random stream is a function from draw number to real, plus a count of
the draws already taken. Cell `(x, y)` of a step takes `Base(range)` draws,
cells taken in x-major order, as the source's loops do.

## Model

| member | source | states |
|---|---|---|
| Life.LifeRuleIsB3S23 | RobustLife.java:545-560 | a cell is live next exactly when it has 3 live neighbours, or is live and has 2 |
| Life.NextGenerationAt | RobustLife.java:533-561 | each cell of the next generation is the Life rule on that cell and its 8 toroidal neighbours |
| Life.WrapIndex | RobustLife.java:377-384 | the add-or-subtract-until-in-range loops return the coordinate modulo the grid size, in [0, size) |
| ConeLayout.DimCentre | RobustLife.java:370-374 | layer l has dimension 2(l+1)+1, centre offset l+1, and the next layer is two wider |
| ConeLayout.WindowInNextLayer | RobustLife.java:475-496 | for every local (cx, cy) of layer l and 0 <= x, y < 3, (cx+x, cy+y) is inside layer l+1, so every index used by correctCell is in bounds |
| ConeSpec.ConeDepth | RobustLife.java:398-401 | a cone has between 1 and range layers, and all range layers exactly when noise > 0 or range = 1 |
| ConeSpec.WeightBounds | RobustLife.java:387-393 | with noise >= 0 and internalDistance >= 0 every confidence weight is in [0, 1] |
| ConeSpec.WeightFallsWithDistance | RobustLife.java:387-393 | a reading further from the centre never has a higher weight |
| ConeSpec.BuiltStatesAt | RobustLife.java:375-385 | local (x, y) of cone layer l holds history layer l at ((cx-(l+1)+x) mod width, (cy-(l+1)+y) mod height) |
| ConeSpec.BuiltWeightsAt | RobustLife.java:387-393 | local (x, y) of cone layer l carries the clamped weight of its Manhattan distance from the centre |
| ConeSpec.BuiltWeightsInUnit | RobustLife.java:387-393 | every weight of a freshly built cone is in [0, 1] |
| ConeSpec.NoisyExtremes | RobustLife.java:413-416 | with a draw in [0, 1), a weight-1 reading never flips and a weight-0 reading always flips |
| ConeSpec.AddNoiseEffect | RobustLife.java:405-424 | a reading flips exactly when its draw is at least its weight; weights and marks are unchanged |
| ConeSpec.AdjudicateProperties | RobustLife.java:516-529 | the verdict replaces a reading only with a strictly heavier disagreeing prediction, keeps a reading that is at least as heavy, never lowers its weight, and keeps it in [0, 1] |
| ConeSpec.FusedWeightBounds | RobustLife.java:527-528 | fusing two agreeing weights in [0, 1] gives a weight in [0, 1] at least as large as either |
| ConeSpec.PredictionInUnit | RobustLife.java:486-498 | the prediction's weight, the product of the nine window weights, is in [0, 1] |
| ConeSpec.LiveAroundIsSum | RobustLife.java:488-497 | the live count is over the eight window cells other than the centre |
| ConeSpec.WindowWeightIsProduct | RobustLife.java:487-497 | the prediction weight is the centre weight times the eight other window weights |
| ConeSpec.SettleKeeps | RobustLife.java:516-529 | settling a cell changes only that cell's state and weight, keeps the marks, and keeps weights in [0, 1] |
| ConeSpec.CorrectWindowNext | RobustLife.java:475-483 | the next-layer window is corrected cell by cell, x outer and y inner |
| ConeSpec.CorrectRingNext | RobustLife.java:435-444 | correctNoise corrects the eight layer-0 cells around the centre in x-outer, y-inner order, skipping the centre |
| ConeProperties.CorrectCellShortcuts | RobustLife.java:470-472 | a marked cell is left as it is; an unmarked cell of the oldest layer, or any unmarked cell with noise 0, is only marked |
| ConeProperties.CorrectCellMarks | RobustLife.java:470-483 | after correctCell the cell is marked and no mark has been cleared |
| ConeProperties.CorrectWindowMarks | RobustLife.java:475-483 | every window cell already corrected is marked and no mark has been cleared |
| ConeProperties.CorrectCellFrame | RobustLife.java:464-530 | correcting a cell of layer l changes nothing else in layers 0..l |
| ConeProperties.CorrectWindowFrame | RobustLife.java:475-483 | correcting a layer's window changes nothing in the newer layers |
| ConeProperties.CorrectCellInUnit | RobustLife.java:464-530 | correction keeps every weight in [0, 1] |
| ConeProperties.CorrectCellVerdict | RobustLife.java:485-529 | a corrected reading either took the strictly heavier prediction or kept its state at weight at least the prediction's; its weight never falls |
| ConeProperties.CorrectCellKeepsCentre | RobustLife.java:435-444 | correcting a non-centre layer-0 cell leaves the centre state and weight alone |
| ConeProperties.CorrectRingKeepsCentre | RobustLife.java:435-444 | correcting the ring leaves layer-0 states[1][1] and its weight alone |
| ConeProperties.CorrectNoiseProperties | RobustLife.java:427-445 | correctNoise keeps the centre reading, marks all eight ring cells, keeps weights in [0, 1], and changes no state of a history-consistent cone |
| ConeProperties.CorrectCellKeepsStates | RobustLife.java:464-530 | in a cone whose every reading is the Life rule on the older layer, correction changes no state |
| ConeProperties.WindowCellIsTorus | RobustLife.java:475-496 | window slot j of layer l+1 around local (x, y) is the toroidal neighbour of the matching history cell |
| ConeProperties.WindowIsNeighbourhood | RobustLife.java:486-514 | the prediction's state is the Life rule on the matching history cell and its toroidal neighbours |
| ConeProperties.LifeOfNeighbourhood | RobustLife.java:533-561 | the Life rule on a 3x3 window equals the Life rule on the grid cell it is centred on |
| ConeProperties.BuiltConeIsLife | RobustLife.java:533-561 | stepping an uncorrected cone gives the Life rule on the cell's toroidal neighbourhood |
| ConeProperties.BuiltConsistent | RobustLife.java:365-402 | a cone built from a Life run agrees everywhere with its own predictions |
| ConeProperties.BuiltCellIsLifeStep | RobustLife.java:375-385 | in a Life run, each cone reading is the Life rule on the older layer |
| ConeProperties.QuietNoise | RobustLife.java:405-424 | when every draw is below its weight, adding noise changes nothing |
| ConeProperties.NoiseFreeStepIsLife | RobustLife.java:289-306 | on a Life-run history with no reading flipped, noising, correcting and stepping a cone gives exactly the Life rule |
| Cones.Cone.constructor | RobustLife.java:354-357 | a new cone holds the states and weights built from the history around (cx, cy), to the depth ConeDepth gives |
| Cones.Cone.Init | RobustLife.java:365-402 | fills every layer from l down with the built states and weights |
| Cones.Cone.InitLayer | RobustLife.java:375-395 | fills one layer with the built states and weights |
| Cones.Cone.InitCell | RobustLife.java:377-393 | writes the wrapped history cell and its weight to one slot and no other |
| Cones.Cone.AddNoise | RobustLife.java:405-424 | the new cone is AddNoiseF of the old one, and exactly Base(depth) draws are consumed |
| Cones.Cone.AddNoiseFrom | RobustLife.java:409-423 | noises layers l and deeper in draw order |
| Cones.Cone.AddNoiseRow | RobustLife.java:411-417 | noises one row of one layer, one draw per reading |
| Cones.Cone.ClearMarks | RobustLife.java:448-461 | every mark of every layer is cleared; states and weights are unchanged |
| Cones.Cone.ClearMarksFrom | RobustLife.java:452-460 | clears layers l and deeper |
| Cones.Cone.CorrectNoise | RobustLife.java:427-445 | the new cone is CorrectNoiseF of the old one |
| Cones.Cone.CorrectRingRow | RobustLife.java:437-443 | one row of the ring is corrected |
| Cones.Cone.CorrectCell | RobustLife.java:464-530 | the new cone is CorrectCellF of the old one |
| Cones.Cone.CorrectRow | RobustLife.java:478-482 | one row of the next layer's window is corrected |
| Cones.Cone.Judge | RobustLife.java:516-529 | the cell is settled against its prediction, and nothing else changes |
| Cones.Cone.Predict | RobustLife.java:485-514 | returns the Life rule on the next layer's window and the product of its weights |
| Cones.Cone.ScanRow | RobustLife.java:490-497 | accumulates the live count and the weight product over one window row |
| Cones.Cone.Step | RobustLife.java:533-561 | returns the Life rule on the centre's 3x3 window of layer 0 |
| AutomatonSpec.DrawOffsetStep | RobustLife.java:282-296 | each cell consumes Base(range) draws, taken in x-major order |
| AutomatonSpec.StepF | RobustLife.java:272-331 | a step keeps the automaton well shaped and keeps range, size, noise and internal distance |
| AutomatonSpec.StepShiftsHistory | RobustLife.java:310-327 | after a step, layer 0 is the new generation and layer l is the old layer l-1 |
| AutomatonSpec.QuietStepIsLife | RobustLife.java:289-306 | while the countdown is positive or noise is off, the new layer 0 is exactly Life on the old layer 0 |
| AutomatonSpec.CorrectingStepIsLife | RobustLife.java:289-306 | a correcting step on a Life run, with no draw flipping a reading, is also exactly Life |
| AutomatonSpec.StepKeepsLifeRun | RobustLife.java:310-327 | a step that adds the Life successor to a Life run leaves a Life run |
| AutomatonSpec.NoiselessRunIsLife | RobustLife.java:333-339 | with noise off, n steps make layer 0 the n-th Life generation of the old layer 0 |
| AutomatonSpec.SettleCountdown | RobustLife.java:329 | after n steps the countdown is max(0, synchCount - n) |
| AutomatonSpec.ClearF | RobustLife.java:587-601 | clear kills every cell of every layer and leaves the countdown alone |
| AutomatonSpec.DeadGridStaysDead | RobustLife.java:545-560 | the dead grid is a fixed point of Life |
| AutomatonSpec.ClearedStaysDead | RobustLife.java:587-601 | a cleared automaton is a Life run, and a step that does not correct (countdown positive or noise off), or one in which no draw flips a reading, leaves its history dead |
| AutomatonSpec.FlipCell | RobustLife.java:623-628 | exactly the cell (x, y) of layer 0 is flipped |
| AutomatonSpec.ToggleF | RobustLife.java:623-629 | a toggle flips only cells[0][x][y], sets the countdown to range-1, and changes no other field |
| AutomatonSpec.ToggleTwice | RobustLife.java:623-629 | toggling the same cell twice restores the cells |
| Automata.RobustLife.constructor | RobustLife.java:69-88 | a new automaton is all dead, with countdown range-1, noise and internal distance 0, and no draws taken |
| Automata.RobustLife.SetRandomSeed | RobustLife.java:91-94 | replaces the random stream and changes nothing else |
| Automata.RobustLife.SetNoise | RobustLife.java:97-100 | sets the noise and changes nothing else |
| Automata.RobustLife.SetInternalDistance | RobustLife.java:103-106 | sets the internal distance and changes nothing else |
| Automata.RobustLife.Step | RobustLife.java:272-331 | the new state is StepF of the old one |
| Automata.RobustLife.NewGeneration | RobustLife.java:280-308 | workCells is the next layer, and the draw count is advanced by one cone per cell when correcting |
| Automata.RobustLife.NextColumn | RobustLife.java:284-297 | column x of workCells is computed and the other columns are untouched |
| Automata.RobustLife.CellStep | RobustLife.java:286-306 | one cell's cone, noised and corrected when the countdown is 0 and noise > 0, stepped by the Life rule |
| Automata.RobustLife.Push | RobustLife.java:310-327 | the history becomes workCells followed by the old history without its oldest layer |
| Automata.RobustLife.ShiftHistory | RobustLife.java:311-320 | layers 1..range-1 take the old layers 0..range-2, and layer 0 is unchanged |
| Automata.RobustLife.CopyLayer | RobustLife.java:313-319 | layer r+1 takes layer r, and nothing else changes |
| Automata.RobustLife.WriteNewest | RobustLife.java:321-327 | layer 0 takes workCells, and nothing else changes |
| Automata.RobustLife.StepN | RobustLife.java:333-339 | step(n) is n single steps (none when n <= 0) |
| Automata.RobustLife.Clear | RobustLife.java:587-601 | the new state is ClearF of the old one |
| Automata.RobustLife.ClearLayer | RobustLife.java:593-599 | kills layer r and changes no other layer |
| Automata.RobustLife.Press | RobustLife.java:610-632 | a press inside the grid toggles the cell and records it as the last one; a press outside changes nothing |
| Automata.RobustLife.Drag | RobustLife.java:639-664 | a drag inside the grid onto a new cell toggles it; onto the last cell it changes nothing; the last cell is updated inside the grid |
| Automata.RobustLife.Toggle | RobustLife.java:623-629 | the new state is ToggleF of the old one |
| Automata.RobustLife.Flip | RobustLife.java:623-628 | flips cells[0][x][y] only |
| Automata.RobustLife.Load | RobustLife.java:108-238 | the new state and the error are LoadF of the old state and the file |
| Automata.Layers | RobustLife.java:199-235 | a fresh array in which exactly the listed cells of layer 0 are live |
| Loading.ParseDimensions | RobustLife.java:163-198 | accepted dimensions are positive |
| Loading.ParseFile | RobustLife.java:130-235 | an accepted file has at least three lines and a positive range, width and height, and its cell lines parse |
| Loading.ParseCellsMeaning | RobustLife.java:203-235 | the cell lines are accepted exactly when each is blank or lists an in-grid cell, and then the live cells are exactly those listed |
| Loading.ParseFileMeaning | RobustLife.java:130-235 | a file is accepted exactly when it is well formed, and then its settings are those written in it |
| Loading.ParsedCellsInGrid | RobustLife.java:212-229 | every accepted cell is inside the grid |
| Loading.LoadedHistory | RobustLife.java:199-201 | the loaded history has range layers of the loaded size |
| Loading.LoadMeaning | RobustLife.java:108-238 | a well-formed file sets range, countdown range-1, noise and size, and makes exactly the listed layer-0 cells live; any other file changes nothing and yields an error |
| Loading.SetLiveAdds | RobustLife.java:234 | making a cell live adds it to the live cells of layer 0 |
| Loading.LoadCellsAsWritten | RobustLife.java:204-235 | the cell loop fails exactly when the cell lines are rejected |
| Loading.LoadCellsAsWrittenSets | RobustLife.java:204-235 | on accepted cell lines the loop leaves exactly the listed cells live |
| Loading.LoadAsWrittenF | RobustLife.java:130-235 | load as written reports the same error as the checked load |
| Loading.LoadAsWrittenAgrees | RobustLife.java:108-238 | load as written and the checked load agree on every accepted file |
| Loading.LoadAsWrittenBreaksShape | RobustLife.java:137-161 | a file with a valid range and an invalid noise leaves the automaton with a new range but the old cells array |

## Left out

- The display (`display`, `drawMessage`, `setMessage`, fonts and image
  buffers) is left out: it only draws.
- The mouse handlers' conversion from pixels to cells is left out because it
  is floating-point screen geometry. `Press` and `Drag` take the cell
  coordinates directly.
- The `synchronized(lock)` blocks are left out; the model is sequential.
  The source runs `clear` and the `lastX` / `lastY` updates outside the lock,
  and that interleaving is not modelled either.
- Opening the file or URL, reading lines and closing the reader are left out
  of `load`. `Integer.parseInt`, `Double.parseDouble` and `StringTokenizer`
  are abstracted by the `Line` datatype: a line's value as an integer, its
  value as a real, and its space-separated tokens, each already parsed or
  absent. The message texts of the errors are not modelled, only which check
  failed.
- `save` is left out: it only writes the range, the noise, the size and the
  live cells of layer 0 to a file.
- The algorithm of `java.util.Random` and seeding from the clock are left
  out. The stream is given as `rng: nat -> real`, and `SetRandomSeed` takes
  the new stream.
- `dump`, `dumpSub`, `dumpCell` and `dumpCellSub` are left out: they only
  print.
- RobustLifeTest.java and RobustLifeApplication.java are not part of this
  model. They are a test driver and a Swing control panel.
- Automata.RobustLife.Step: the source builds all cones into a grid and then
  steps them. The model steps each cone as soon as it is built. Nothing in
  between writes the history or the cones, so the results are the same.
- Cones.Cone.CorrectNoise requires that the cone has all range layers. The
  source calls it only when noise > 0, and then every cone is that deep.
- Automata.RobustLife.constructor requires a positive size and range, as
  every use of the class in the source does.
- Java's 32-bit `int` and `double` are modelled as unbounded integers and
  exact reals. Overflow and rounding are not modelled.
- Loading.LoadMeaning: a noise line of `NaN` is not modelled. The source's
  `Double.parseDouble` accepts it, and NaN passes the range check on the
  noise, so the source loads such a file and then runs as if the noise were
  off. Reals have no NaN, so the model's accepted files all have a noise in
  [0, 1].
- Cone weights are reals with no bound on `noise` or `internalDistance`.
  `setNoise` does not check its argument, so the weight bounds are proved
  under noise >= 0 and internalDistance >= 0.
- `clear` keeps the settle countdown, as the source does, even though the
  countdown is otherwise restarted whenever layer 0 is changed other than
  by a step.

## Findings

| source | as written | input that shows it | evidently intended | confidence | as-written member | corrected member |
|---|---|---|---|---|---|---|
| RobustLife.java:137-161 | `load` assigns `range`, `synchCount` and `noise` before the later checks run, and allocates `cells` only after all header checks pass; a file rejected after line 1 leaves a new range (and possibly a new noise) with the old cells array | a one-layer automaton loading a file whose first line is `2` and whose second line is `2.0`: the noise check throws, leaving range 2 over a one-layer array, so the next `step()` indexes `cells[1]` | a rejected file leaves the automaton as it was | not executed | Loading.LoadAsWrittenF, Loading.LoadAsWrittenBreaksShape | Loading.LoadF, Loading.LoadMeaning |
