/** Where each reading of a light cone lives.  The source chains one `Cone`
    object per history layer; here the layers of one cone sit one after the
    other in a single flat buffer.  Layer `l` is a Dim(l)-by-Dim(l) window,
    stored row by row (x outer, y inner) from offset Base(l).  This is also the
    order in which noise draws are consumed. */
module ConeLayout {

  /** Side of the layer-`l` window: radius l + 1 around the centre. */
  function Dim(l: nat): nat
  {
    2 * (l + 1) + 1
  }

  /** Offset of layer `l`: the number of readings in layers 0 .. l-1. */
  function Base(l: nat): nat
  {
    if l == 0 then 0 else Base(l - 1) + Dim(l - 1) * Dim(l - 1)
  }

  /** The next layer starts right after the Dim(l)-by-Dim(l) window of this one. */
  lemma BaseNext(l: nat)
    ensures Base(l + 1) == Base(l) + Dim(l) * Dim(l)
  {
  }

  /** Offset of local cell (x, y) of layer `l`. */
  function Index(l: nat, x: int, y: int): int
  {
    Base(l) + x * Dim(l) + y
  }

  /** (x, y) lies inside the layer-`l` window. */
  predicate InLayer(l: nat, x: int, y: int)
  {
    0 <= x < Dim(l) && 0 <= y < Dim(l)
  }

  /** Each layer's window is centred: its middle cell is at (l + 1, l + 1). */
  lemma DimCentre(l: nat)
    ensures Dim(l) / 2 == l + 1 && Dim(l + 1) == Dim(l) + 2
  {
  }

  /** Row-major offsets of a D-by-D window fill exactly [0, D*D). */
  lemma RowMajorBound(x: int, y: int, d: int)
    requires 0 <= x < d && 0 <= y < d
    ensures 0 <= x * d + y < d * d
  {
    assert (d - 1 - x) * d >= 0;
  }

  /** Row-major offsets decode back to their row and column. */
  lemma RowMajorDecode(x: int, y: int, d: int)
    requires d > 0 && 0 <= x && 0 <= y < d
    ensures (x * d + y) / d == x && (x * d + y) % d == y
  {
    var j := x * d + y;
    RemainderUniqueRow(j, d, x, y);
  }

  lemma RemainderUniqueRow(j: int, d: int, x: int, y: int)
    requires d > 0 && 0 <= y < d && j == x * d + y
    ensures j / d == x && j % d == y
  {
    var q := j / d;
    assert j == q * d + j % d;
    assert (x - q) * d == j % d - y;
    assert j % d == y by {
      var e := x - q;
      assert e * d == j % d - y;
    }
    assert (x - q) * d == 0;
  }

  /** Layer offsets grow with the layer. */
  lemma {:induction false} BaseMonotone(l: nat, m: nat)
    requires l <= m
    ensures Base(l) <= Base(m)
  {
    if l < m {
      BaseMonotone(l, m - 1);
    }
  }

  /** A cell of layer `l` has its offset in [Base(l), Base(l + 1)), so
      distinct layers never share a slot. */
  lemma IndexInLayer(l: nat, x: int, y: int)
    requires InLayer(l, x, y)
    ensures Base(l) <= Index(l, x, y) < Base(l + 1)
  {
    RowMajorBound(x, y, Dim(l));
  }

  /** The window around local (cx + 1, cy + 1) of layer l + 1 is the cell
      (cx, cy) of layer l seen one step further back: every cell of it lies
      inside layer l + 1, so the corrector's `cx + x`, `cy + y` reads never
      leave the array. */
  lemma WindowInNextLayer(l: nat, cx: int, cy: int, x: int, y: int)
    requires InLayer(l, cx, cy) && 0 <= x < 3 && 0 <= y < 3
    ensures InLayer(l + 1, cx + x, cy + y)
    ensures Base(l + 1) <= Index(l + 1, cx + x, cy + y) < Base(l + 2)
  {
    IndexInLayer(l + 1, cx + x, cy + y);
  }
}
