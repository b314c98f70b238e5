/** The Game-of-Life rule and the toroidal grid it runs on, as pure values.
    A grid is indexed [x][y] with x in [0, width) and y in [0, height), as the
    automaton's `cells[layer][x][y]` arrays are. */
module Life {

  type Grid = seq<seq<bool>>

  /** `g` is a width-by-height grid. */
  predicate IsGrid(g: Grid, width: int, height: int)
  {
    |g| == width && forall x :: 0 <= x < width ==> |g[x]| == height
  }

  /** The standard Life transition for one cell, written as the source writes
      it: a live cell dies with more than 3 or fewer than 2 live neighbours, a
      dead cell is born with exactly 3. */
  function LifeRule(alive: bool, count: int): bool
  {
    if alive then !(count > 3 || count < 2) else count == 3
  }

  /** The rule is B3/S23: born on 3, survives on 2 or 3. */
  lemma LifeRuleIsB3S23(alive: bool, count: int)
    ensures LifeRule(alive, count) <==> count == 3 || (alive && count == 2)
  {
  }

  function Bit(b: bool): nat { if b then 1 else 0 }

  /** The cell of `g` at (x, y) with both coordinates wrapped onto the torus. */
  function TorusAt(g: Grid, width: int, height: int, x: int, y: int): bool
    requires width > 0 && height > 0 && IsGrid(g, width, height)
  {
    g[x % width][y % height]
  }

  /** Number of live cells among the eight toroidal neighbours of (x, y). */
  function LiveNeighbours(g: Grid, width: int, height: int, x: int, y: int): (n: nat)
    requires width > 0 && height > 0 && IsGrid(g, width, height)
    ensures n <= 8
  {
    Bit(TorusAt(g, width, height, x - 1, y - 1)) + Bit(TorusAt(g, width, height, x - 1, y))
      + Bit(TorusAt(g, width, height, x - 1, y + 1)) + Bit(TorusAt(g, width, height, x, y - 1))
      + Bit(TorusAt(g, width, height, x, y + 1)) + Bit(TorusAt(g, width, height, x + 1, y - 1))
      + Bit(TorusAt(g, width, height, x + 1, y)) + Bit(TorusAt(g, width, height, x + 1, y + 1))
  }

  /** One generation of ordinary Life on the width-by-height torus. */
  function NextGeneration(g: Grid, width: int, height: int): (r: Grid)
    requires width > 0 && height > 0 && IsGrid(g, width, height)
    ensures IsGrid(r, width, height)
  {
    seq(width, x requires 0 <= x < width =>
      seq(height, y requires 0 <= y < height =>
        LifeRule(g[x][y], LiveNeighbours(g, width, height, x, y))))
  }

  /** Each cell of the next generation follows the Life rule on its torus neighbourhood. */
  lemma NextGenerationAt(g: Grid, width: int, height: int, x: int, y: int)
    requires width > 0 && height > 0 && IsGrid(g, width, height)
    requires 0 <= x < width && 0 <= y < height
    ensures NextGeneration(g, width, height)[x][y] == LifeRule(g[x][y], LiveNeighbours(g, width, height, x, y))
  {
  }

  /** `n` generations of ordinary Life. */
  function Generations(g: Grid, width: int, height: int, n: nat): (r: Grid)
    requires width > 0 && height > 0 && IsGrid(g, width, height)
    ensures IsGrid(r, width, height)
  {
    if n == 0 then g else NextGeneration(Generations(g, width, height, n - 1), width, height)
  }

  /** Two grids of the same shape that agree cell by cell are equal. */
  lemma GridExtensionality(a: Grid, b: Grid, width: int, height: int)
    requires IsGrid(a, width, height) && IsGrid(b, width, height)
    requires forall x, y :: 0 <= x < width && 0 <= y < height ==> a[x][y] == b[x][y]
    ensures a == b
  {
    forall x | 0 <= x < width
      ensures a[x] == b[x]
    {
      assert forall y :: 0 <= y < height ==> a[x][y] == b[x][y];
    }
  }

  /** A coordinate that wraps by repeated addition and subtraction, as the
      cone builder's two `while` loops do, lands on the Euclidean remainder. */
  method WrapIndex(v: int, n: int) returns (r: int)
    requires n > 0
    ensures 0 <= r < n
    ensures r == v % n
  {
    r := v;
    ghost var k := 0;
    while r < 0
      invariant r == v + k * n
      decreases -r
    {
      r := r + n;
      k := k + 1;
    }
    while r >= n
      invariant 0 <= r && r == v + k * n
      decreases r
    {
      r := r - n;
      k := k - 1;
    }
    RemainderUnique(v, n, k, r);
  }

  /** The remainder of `v` modulo `n` is the only value in [0, n) that
      differs from `v` by a multiple of `n`. */
  lemma RemainderUnique(v: int, n: int, k: int, r: int)
    requires n > 0 && 0 <= r < n && r == v + k * n
    ensures r == v % n
  {
    var q := v / n;
    assert v == q * n + v % n;
    var d := k + q;
    assert r - v % n == d * n;
  }

  /** Reading the torus at an offset from a wrapped position is reading at
      the wrapped offset position. */
  lemma TorusAtShift(g: Grid, width: int, height: int, p: int, q: int, dx: int, dy: int)
    requires width > 0 && height > 0 && IsGrid(g, width, height)
    ensures TorusAt(g, width, height, p % width + dx, q % height + dy) == g[(p + dx) % width][(q + dy) % height]
  {
    ModShift(p, dx, width);
    ModShift(q, dy, height);
  }

  /** Wrapping before or after a shift lands on the same torus coordinate. */
  lemma ModShift(p: int, q: int, n: int)
    requires n > 0
    ensures ((p % n) + q) % n == (p + q) % n
  {
    var k, m := p / n, ((p % n) + q) / n;
    var r := ((p % n) + q) % n;
    assert p == k * n + p % n;
    assert (p % n) + q == m * n + r;
    assert r == (p + q) + (-(k + m)) * n;
    RemainderUnique(p + q, n, -(k + m), r);
  }
}
