/** A ydim x xdim raster of values with a no-data sentinel (tb_raster). Row 0
    is the southern edge; the ascii file lists rows from north to south. */
module Raster {
  import opened Boundaries

  const NODATA_DEFAULT: real := -9999.0
  /** Start value of the running minimum, and the result when no cell is valid. */
  const MIN_START: real := 9.9999e306
  /** Start value of the running maximum, and the result when no cell is valid. */
  const MAX_START: real := -9.9999e306

  // ---------------------------------------------------------------------------
  // Grids as values.
  // ---------------------------------------------------------------------------

  ghost predicate IsGrid(g: seq<seq<real>>, ydim: nat, xdim: nat)
  {
    |g| == ydim && forall y :: 0 <= y < ydim ==> |g[y]| == xdim
  }

  function ConstGrid(ydim: nat, xdim: nat, v: real): (g: seq<seq<real>>)
    ensures IsGrid(g, ydim, xdim)
    ensures forall y, x :: 0 <= y < ydim && 0 <= x < xdim ==> g[y][x] == v
  {
    seq(ydim, _ => seq(xdim, _ => v))
  }

  /** What copy_rastercells writes: source no-data becomes the target's no-data. */
  function CopyCell(v: real, srcNodata: real, dstNodata: real): real
  {
    if v == srcNodata then dstNodata else v
  }

  /** The grid with the single cell (y, x) replaced by v. */
  function Put(g: seq<seq<real>>, y: nat, x: nat, v: real): (r: seq<seq<real>>)
    requires y < |g| && x < |g[y]|
  {
    g[y := g[y][x := v]]
  }

  /** Sum of the valid entries of a row. */
  function RowSum(r: seq<real>, nd: real): real
  {
    if |r| == 0 then 0.0
    else RowSum(r[..|r| - 1], nd) + (if r[|r| - 1] != nd then r[|r| - 1] else 0.0)
  }

  /** Number of no-data entries of a row. */
  function RowNAs(r: seq<real>, nd: real): nat
  {
    if |r| == 0 then 0
    else RowNAs(r[..|r| - 1], nd) + (if r[|r| - 1] == nd then 1 else 0)
  }

  /** Running minimum over the valid entries of a row, started at `m`. */
  function RowMin(r: seq<real>, nd: real, m: real): real
  {
    if |r| == 0 then m
    else
      var acc := RowMin(r[..|r| - 1], nd, m);
      if r[|r| - 1] != nd && r[|r| - 1] < acc then r[|r| - 1] else acc
  }

  /** Running maximum over the valid entries of a row, started at `m`. */
  function RowMax(r: seq<real>, nd: real, m: real): real
  {
    if |r| == 0 then m
    else
      var acc := RowMax(r[..|r| - 1], nd, m);
      if r[|r| - 1] != nd && r[|r| - 1] > acc then r[|r| - 1] else acc
  }

  function GridSum(g: seq<seq<real>>, nd: real): real
  {
    if |g| == 0 then 0.0 else GridSum(g[..|g| - 1], nd) + RowSum(g[|g| - 1], nd)
  }

  function GridNAs(g: seq<seq<real>>, nd: real): nat
  {
    if |g| == 0 then 0 else GridNAs(g[..|g| - 1], nd) + RowNAs(g[|g| - 1], nd)
  }

  function GridMin(g: seq<seq<real>>, nd: real, m: real): real
  {
    if |g| == 0 then m else RowMin(g[|g| - 1], nd, GridMin(g[..|g| - 1], nd, m))
  }

  function GridMax(g: seq<seq<real>>, nd: real, m: real): real
  {
    if |g| == 0 then m else RowMax(g[|g| - 1], nd, GridMax(g[..|g| - 1], nd, m))
  }

  /** What mean returns for a ydim x xdim grid. */
  function GridMean(g: seq<seq<real>>, nd: real, ydim: nat, xdim: nat): real
  {
    var nas := GridNAs(g, nd);
    if nas == ydim * xdim then nd else GridSum(g, nd) / ((ydim * xdim) as real - nas as real)
  }

  /** Mean of the valid entries of a neighbourhood, or `ndOut` when none is valid. */
  function NeighbourhoodMean(vals: seq<real>, nd: real, ndOut: real): real
  {
    var count := RowValid(vals, nd);
    if count > 0 then RowSum(vals, nd) / (count as real) else ndOut
  }

  /** The target cell and its four rook neighbours, in the order the filter visits them. */
  function RooksValues(g: seq<seq<real>>, n1: seq<int>, s1: seq<int>, e1: seq<int>, w1: seq<int>,
                       y: nat, x: nat): seq<real>
    requires IsGrid(g, |n1|, |e1|) && |s1| == |n1| && |w1| == |e1|
    requires InRange(|n1|, n1) && InRange(|n1|, s1) && InRange(|e1|, e1) && InRange(|e1|, w1)
    requires y < |n1| && x < |e1|
  {
    [g[y][x], g[n1[y]][x], g[s1[y]][x], g[y][e1[x]], g[y][w1[x]]]
  }

  /** The rook values followed by the four diagonal neighbours. */
  function QueensValues(g: seq<seq<real>>, n1: seq<int>, s1: seq<int>, e1: seq<int>, w1: seq<int>,
                        y: nat, x: nat): seq<real>
    requires IsGrid(g, |n1|, |e1|) && |s1| == |n1| && |w1| == |e1|
    requires InRange(|n1|, n1) && InRange(|n1|, s1) && InRange(|e1|, e1) && InRange(|e1|, w1)
    requires y < |n1| && x < |e1|
  {
    RooksValues(g, n1, s1, e1, w1, y, x)
      + [g[n1[y]][e1[x]], g[n1[y]][w1[x]], g[s1[y]][e1[x]], g[s1[y]][w1[x]]]
  }

  /** Tables that index a ydim x xdim grid. */
  ghost predicate Tables(ydim: nat, xdim: nat, n1: seq<int>, s1: seq<int>, e1: seq<int>, w1: seq<int>)
  {
    && |n1| == ydim && |s1| == ydim && |e1| == xdim && |w1| == xdim
    && InRange(ydim, n1) && InRange(ydim, s1) && InRange(xdim, e1) && InRange(xdim, w1)
  }

  /** What rooks_filter writes into every cell. */
  ghost function RooksGrid(g: seq<seq<real>>, n1: seq<int>, s1: seq<int>, e1: seq<int>, w1: seq<int>,
                           nd: real, ndOut: real): (f: seq<seq<real>>)
    requires Tables(|n1|, |e1|, n1, s1, e1, w1) && IsGrid(g, |n1|, |e1|)
    ensures IsGrid(f, |n1|, |e1|)
  {
    seq(|n1|, y requires 0 <= y < |n1| =>
      seq(|e1|, x requires 0 <= x < |e1| => NeighbourhoodMean(RooksValues(g, n1, s1, e1, w1, y, x), nd, ndOut)))
  }

  /** What queens_filter writes into every cell. */
  ghost function QueensGrid(g: seq<seq<real>>, n1: seq<int>, s1: seq<int>, e1: seq<int>, w1: seq<int>,
                            nd: real, ndOut: real): (f: seq<seq<real>>)
    requires Tables(|n1|, |e1|, n1, s1, e1, w1) && IsGrid(g, |n1|, |e1|)
    ensures IsGrid(f, |n1|, |e1|)
  {
    seq(|n1|, y requires 0 <= y < |n1| =>
      seq(|e1|, x requires 0 <= x < |e1| => NeighbourhoodMean(QueensValues(g, n1, s1, e1, w1, y, x), nd, ndOut)))
  }

  /** The cell values in the order the ascii file lists them: rows from the
      last (northern) one down to row 0, each from west to east. */
  function FileOrder(g: seq<seq<real>>): seq<real>
  {
    if |g| == 0 then [] else g[|g| - 1] + FileOrder(g[..|g| - 1])
  }

  /** The grid of `rows` rows of xdim values that a file body fills: the first
      xdim values become the last (northern) row. */
  function FromFileOrder(vals: seq<real>, rows: nat, xdim: nat): (g: seq<seq<real>>)
    requires |vals| == rows * xdim
    ensures IsGrid(g, rows, xdim)
  {
    if rows == 0 then []
    else
      MulPred(rows, xdim);
      FromFileOrder(vals[xdim..], rows - 1, xdim) + [vals[..xdim]]
  }

  // ---------------------------------------------------------------------------
  // Properties of the grid functions.
  // ---------------------------------------------------------------------------

  lemma MulMono(a: int, b: int, d: int)
    requires a <= b && d >= 0
    ensures a * d <= b * d
  {
    assert b * d - a * d == (b - a) * d;
  }

  lemma MulPred(n: nat, d: nat)
    requires n > 0
    ensures n * d == (n - 1) * d + d
  {
  }

  /** Every valid entry of a row is at least the running minimum, which is at
      most its start and is either its start or one of the valid entries. */
  lemma {:induction false} RowMinIsMin(r: seq<real>, nd: real, m: real)
    ensures RowMin(r, nd, m) <= m
    ensures forall i :: 0 <= i < |r| && r[i] != nd ==> RowMin(r, nd, m) <= r[i]
    ensures RowMin(r, nd, m) == m || exists i :: 0 <= i < |r| && r[i] != nd && r[i] == RowMin(r, nd, m)
  {
    if |r| > 0 {
      var p := r[..|r| - 1];
      RowMinIsMin(p, nd, m);
      if RowMin(r, nd, m) != m && RowMin(r, nd, m) == RowMin(p, nd, m) {
        var i :| 0 <= i < |p| && p[i] != nd && p[i] == RowMin(p, nd, m);
        assert r[i] == p[i];
      }
    }
  }

  /** The running maximum, mirror image of RowMinIsMin. */
  lemma {:induction false} RowMaxIsMax(r: seq<real>, nd: real, m: real)
    ensures RowMax(r, nd, m) >= m
    ensures forall i :: 0 <= i < |r| && r[i] != nd ==> RowMax(r, nd, m) >= r[i]
    ensures RowMax(r, nd, m) == m || exists i :: 0 <= i < |r| && r[i] != nd && r[i] == RowMax(r, nd, m)
  {
    if |r| > 0 {
      var p := r[..|r| - 1];
      RowMaxIsMax(p, nd, m);
      if RowMax(r, nd, m) != m && RowMax(r, nd, m) == RowMax(p, nd, m) {
        var i :| 0 <= i < |p| && p[i] != nd && p[i] == RowMax(p, nd, m);
        assert r[i] == p[i];
      }
    }
  }

  /** min: at most MIN_START and every valid cell, and either MIN_START (in
      particular when no cell is valid) or the value of a valid cell. */
  lemma {:induction false} GridMinIsMin(g: seq<seq<real>>, nd: real, m: real)
    ensures GridMin(g, nd, m) <= m
    ensures forall y, x :: 0 <= y < |g| && 0 <= x < |g[y]| && g[y][x] != nd ==> GridMin(g, nd, m) <= g[y][x]
    ensures GridMin(g, nd, m) == m
            || exists y, x :: 0 <= y < |g| && 0 <= x < |g[y]| && g[y][x] != nd && g[y][x] == GridMin(g, nd, m)
  {
    if |g| > 0 {
      var p := g[..|g| - 1];
      var acc := GridMin(p, nd, m);
      GridMinIsMin(p, nd, m);
      RowMinIsMin(g[|g| - 1], nd, acc);
      forall y, x | 0 <= y < |g| && 0 <= x < |g[y]| && g[y][x] != nd
        ensures GridMin(g, nd, m) <= g[y][x]
      {
        if y < |g| - 1 { assert g[y] == p[y]; }
      }
      if GridMin(g, nd, m) != m {
        if GridMin(g, nd, m) == acc {
          var y, x :| 0 <= y < |p| && 0 <= x < |p[y]| && p[y][x] != nd && p[y][x] == acc;
          assert g[y][x] == p[y][x];
        } else {
          var x :| 0 <= x < |g[|g| - 1]| && g[|g| - 1][x] != nd && g[|g| - 1][x] == GridMin(g, nd, m);
        }
      }
    }
  }

  /** max: at least MAX_START and every valid cell, and either MAX_START or a valid cell. */
  lemma {:induction false} GridMaxIsMax(g: seq<seq<real>>, nd: real, m: real)
    ensures GridMax(g, nd, m) >= m
    ensures forall y, x :: 0 <= y < |g| && 0 <= x < |g[y]| && g[y][x] != nd ==> GridMax(g, nd, m) >= g[y][x]
    ensures GridMax(g, nd, m) == m
            || exists y, x :: 0 <= y < |g| && 0 <= x < |g[y]| && g[y][x] != nd && g[y][x] == GridMax(g, nd, m)
  {
    if |g| > 0 {
      var p := g[..|g| - 1];
      var acc := GridMax(p, nd, m);
      GridMaxIsMax(p, nd, m);
      RowMaxIsMax(g[|g| - 1], nd, acc);
      forall y, x | 0 <= y < |g| && 0 <= x < |g[y]| && g[y][x] != nd
        ensures GridMax(g, nd, m) >= g[y][x]
      {
        if y < |g| - 1 { assert g[y] == p[y]; }
      }
      if GridMax(g, nd, m) != m {
        if GridMax(g, nd, m) == acc {
          var y, x :| 0 <= y < |p| && 0 <= x < |p[y]| && p[y][x] != nd && p[y][x] == acc;
          assert g[y][x] == p[y][x];
        } else {
          var x :| 0 <= x < |g[|g| - 1]| && g[|g| - 1][x] != nd && g[|g| - 1][x] == GridMax(g, nd, m);
        }
      }
    }
  }

  /** Number of valid entries of a row. */
  function RowValid(r: seq<real>, nd: real): nat
  {
    if |r| == 0 then 0
    else RowValid(r[..|r| - 1], nd) + (if r[|r| - 1] != nd then 1 else 0)
  }

  function GridValid(g: seq<seq<real>>, nd: real): nat
  {
    if |g| == 0 then 0 else GridValid(g[..|g| - 1], nd) + RowValid(g[|g| - 1], nd)
  }

  /** n copies of v added up. */
  function Times(n: nat, v: real): real
  {
    if n == 0 then 0.0 else Times(n - 1, v) + v
  }

  lemma {:induction false} TimesIsProduct(n: nat, v: real)
    ensures Times(n, v) == n as real * v
  {
    if n > 0 {
      TimesIsProduct(n - 1, v);
      DistR((n - 1) as real, 1.0, v);
    }
  }

  lemma {:induction false} TimesAdd(a: nat, b: nat, v: real)
    ensures Times(a + b, v) == Times(a, v) + Times(b, v)
  {
    if b > 0 {
      TimesAdd(a, b - 1, v);
    }
  }

  lemma DistR(a: real, b: real, c: real)
    ensures (a + b) * c == a * c + b * c
  {
  }

  /** Every entry of a row is valid or no-data. */
  lemma {:induction false} RowCounts(r: seq<real>, nd: real)
    ensures RowValid(r, nd) + RowNAs(r, nd) == |r|
  {
    if |r| > 0 {
      RowCounts(r[..|r| - 1], nd);
    }
  }

  /** Every cell of a grid is valid or no-data. */
  lemma {:induction false} GridCounts(g: seq<seq<real>>, nd: real, ydim: nat, xdim: nat)
    requires IsGrid(g, ydim, xdim)
    ensures GridValid(g, nd) + GridNAs(g, nd) == ydim * xdim
  {
    if ydim > 0 {
      GridCounts(g[..ydim - 1], nd, ydim - 1, xdim);
      RowCounts(g[ydim - 1], nd);
      MulPred(ydim, xdim);
    }
  }

  /** A row's valid entries, all within [lo, hi], sum to between
      count * lo and count * hi. */
  lemma {:induction false} RowSumBounds(r: seq<real>, nd: real, lo: real, hi: real)
    requires forall i :: 0 <= i < |r| && r[i] != nd ==> lo <= r[i] <= hi
    ensures Times(RowValid(r, nd), lo) <= RowSum(r, nd) <= Times(RowValid(r, nd), hi)
  {
    if |r| > 0 {
      RowSumBounds(r[..|r| - 1], nd, lo, hi);
    }
  }

  /** The grid version of RowSumBounds. */
  lemma {:induction false} GridSumBounds(g: seq<seq<real>>, nd: real, lo: real, hi: real)
    requires forall y, x :: 0 <= y < |g| && 0 <= x < |g[y]| && g[y][x] != nd ==> lo <= g[y][x] <= hi
    ensures Times(GridValid(g, nd), lo) <= GridSum(g, nd) <= Times(GridValid(g, nd), hi)
  {
    if |g| > 0 {
      var p := g[..|g| - 1];
      var row := g[|g| - 1];
      GridSumBounds(p, nd, lo, hi);
      RowSumBounds(row, nd, lo, hi);
      TimesAdd(GridValid(p, nd), RowValid(row, nd), lo);
      TimesAdd(GridValid(p, nd), RowValid(row, nd), hi);
    }
  }

  /** mean lies between min and max whenever some cell is valid. */
  lemma GridMeanBounds(g: seq<seq<real>>, nd: real, ydim: nat, xdim: nat)
    requires IsGrid(g, ydim, xdim)
    requires GridNAs(g, nd) != ydim * xdim
    ensures GridMin(g, nd, MIN_START) <= GridMean(g, nd, ydim, xdim) <= GridMax(g, nd, MAX_START)
  {
    var lo, hi := GridMin(g, nd, MIN_START), GridMax(g, nd, MAX_START);
    GridMinIsMin(g, nd, MIN_START);
    GridMaxIsMax(g, nd, MAX_START);
    GridSumBounds(g, nd, lo, hi);
    MeanFromBounds(g, nd, ydim, xdim, lo, hi);
  }

  /** A raster whose valid cells all hold c, with at least one valid cell, has mean c. */
  lemma GridMeanConstant(g: seq<seq<real>>, nd: real, ydim: nat, xdim: nat, c: real)
    requires IsGrid(g, ydim, xdim)
    requires GridNAs(g, nd) != ydim * xdim
    requires forall y, x :: 0 <= y < ydim && 0 <= x < xdim && g[y][x] != nd ==> g[y][x] == c
    ensures GridMean(g, nd, ydim, xdim) == c
  {
    GridSumBounds(g, nd, c, c);
    MeanFromBounds(g, nd, ydim, xdim, c, c);
  }

  lemma MeanFromBounds(g: seq<seq<real>>, nd: real, ydim: nat, xdim: nat, lo: real, hi: real)
    requires IsGrid(g, ydim, xdim)
    requires GridNAs(g, nd) != ydim * xdim
    requires Times(GridValid(g, nd), lo) <= GridSum(g, nd) <= Times(GridValid(g, nd), hi)
    ensures lo <= GridMean(g, nd, ydim, xdim) <= hi
  {
    GridCounts(g, nd, ydim, xdim);
    var n := GridValid(g, nd);
    TimesIsProduct(n, lo);
    TimesIsProduct(n, hi);
    QuotientBounds(ydim * xdim, GridNAs(g, nd), n, GridSum(g, nd), lo, hi);
  }

  lemma QuotientBounds(total: int, nas: int, n: nat, s: real, lo: real, hi: real)
    requires total == nas + n && n > 0
    requires n as real * lo <= s <= n as real * hi
    ensures lo <= s / (total as real - nas as real) <= hi
  {
    assert total as real - nas as real == n as real;
    DivBounds(s, n as real, lo, hi);
  }

  lemma DivBounds(s: real, n: real, lo: real, hi: real)
    requires n > 0.0 && n * lo <= s <= n * hi
    ensures lo <= s / n <= hi
  {
  }

  /** The neighbourhood mean is the output no-data exactly when no value is
      valid, and otherwise lies within the range of the valid values. */
  lemma NeighbourhoodMeanBounds(vals: seq<real>, nd: real, ndOut: real, lo: real, hi: real)
    requires forall i :: 0 <= i < |vals| && vals[i] != nd ==> lo <= vals[i] <= hi
    ensures RowValid(vals, nd) == 0 ==> NeighbourhoodMean(vals, nd, ndOut) == ndOut
    ensures RowValid(vals, nd) > 0 ==> lo <= NeighbourhoodMean(vals, nd, ndOut) <= hi
  {
    RowSumBounds(vals, nd, lo, hi);
    var count := RowValid(vals, nd);
    if count > 0 {
      TimesIsProduct(count, lo);
      TimesIsProduct(count, hi);
      DivBounds(RowSum(vals, nd), count as real, lo, hi);
    }
  }

  lemma {:induction false} FileOrderLength(g: seq<seq<real>>, ydim: nat, xdim: nat)
    requires IsGrid(g, ydim, xdim)
    ensures |FileOrder(g)| == ydim * xdim
  {
    if ydim > 0 {
      FileOrderLength(g[..ydim - 1], ydim - 1, xdim);
      MulPred(ydim, xdim);
    }
  }

  /** Writing then reading the file body gives back the grid. */
  lemma {:induction false} FileOrderRoundTrip(g: seq<seq<real>>, ydim: nat, xdim: nat)
    requires IsGrid(g, ydim, xdim)
    ensures |FileOrder(g)| == ydim * xdim
    ensures FromFileOrder(FileOrder(g), ydim, xdim) == g
  {
    FileOrderLength(g, ydim, xdim);
    if ydim > 0 {
      var p := g[..ydim - 1];
      FileOrderRoundTrip(p, ydim - 1, xdim);
      var f := FileOrder(g);
      assert f == g[ydim - 1] + FileOrder(p);
      assert f[xdim..] == FileOrder(p) && f[..xdim] == g[ydim - 1];
      assert g == p + [g[ydim - 1]];
    }
  }

  /** Reading then writing the file body gives back the file body. */
  lemma {:induction false} ReadWriteRoundTrip(vals: seq<real>, ydim: nat, xdim: nat)
    requires |vals| == ydim * xdim
    ensures FileOrder(FromFileOrder(vals, ydim, xdim)) == vals
  {
    if ydim > 0 {
      MulPred(ydim, xdim);
      var h := FromFileOrder(vals, ydim, xdim);
      var rest := FromFileOrder(vals[xdim..], ydim - 1, xdim);
      ReadWriteRoundTrip(vals[xdim..], ydim - 1, xdim);
      assert h == rest + [vals[..xdim]];
      assert h[..ydim - 1] == rest;
      assert vals == vals[..xdim] + vals[xdim..];
    }
  }

  // ---------------------------------------------------------------------------
  // The raster object.
  // ---------------------------------------------------------------------------

  class Raster {
    const ydim: nat
    const xdim: nat
    const yllCorner: real
    const xllCorner: real
    const cellsize: real
    const nodataValue: real
    const ras: array2<real>
    const b: Boundaries

    /** The cell array has the raster's dimensions. */
    ghost predicate Shaped()
    {
      ras.Length0 == ydim && ras.Length1 == xdim
    }

    ghost predicate Valid()
    {
      && Shaped()
      && b.Valid() && b.ydim == ydim && b.xdim == xdim
    }

    /** The raster's read tables index the grid (their modes are recognised). */
    ghost predicate Ready()
      requires Valid()
    {
      b.Ready()
    }

    /** The cell values as a grid; row y, column x is ras[y, x]. */
    ghost function Grid(): (g: seq<seq<real>>)
      reads ras
      requires Shaped()
      ensures IsGrid(g, ydim, xdim)
      ensures forall y, x :: 0 <= y < ydim && 0 <= x < xdim ==> g[y][x] == ras[y, x]
    {
      seq(ydim, y requires 0 <= y < ydim reads ras => seq(xdim, x requires 0 <= x < xdim reads ras => ras[y, x]))
    }

    /** init: records the geometry, sets the no-data value, builds the boundary
        tables and sets every cell to no-data. */
    constructor Init(ydimIn: nat, xdimIn: nat, yllCornerIn: real, xllCornerIn: real, cellsizeIn: real,
                     boundariesNsIn: string, boundariesEwIn: string)
      requires ydimIn > 0 && xdimIn > 0
      ensures Valid() && fresh(ras)
      ensures ydim == ydimIn && xdim == xdimIn
      ensures yllCorner == yllCornerIn && xllCorner == xllCornerIn && cellsize == cellsizeIn
      ensures nodataValue == NODATA_DEFAULT
      ensures b.boundariesNs == boundariesNsIn && b.boundariesEw == boundariesEwIn && b.Specified()
      ensures KnownMode(boundariesNsIn) && KnownMode(boundariesEwIn) ==> Ready()
      ensures Grid() == ConstGrid(ydim, xdim, NODATA_DEFAULT)
    {
      ydim := ydimIn;
      xdim := xdimIn;
      yllCorner := yllCornerIn;
      xllCorner := xllCornerIn;
      cellsize := cellsizeIn;
      nodataValue := NODATA_DEFAULT;
      b := new Boundaries.Init(ydimIn, xdimIn, boundariesNsIn, boundariesEwIn);
      ras := new real[ydimIn, xdimIn];
      new;
      SetNull();
    }

    /** setnull: every cell becomes the no-data value. */
    method SetNull()
      requires Shaped()
      modifies ras
      ensures Grid() == ConstGrid(ydim, xdim, nodataValue)
    {
      SetValue(nodataValue);
    }

    /** setvalue: every cell becomes `value`. */
    method SetValue(value: real)
      requires Shaped()
      modifies ras
      ensures Grid() == ConstGrid(ydim, xdim, value)
    {
      for y := 0 to ydim
        invariant forall y', x :: 0 <= y' < y && 0 <= x < xdim ==> ras[y', x] == value
      {
        for x := 0 to xdim
          invariant forall y', x' :: 0 <= y' < y && 0 <= x' < xdim ==> ras[y', x'] == value
          invariant forall x' :: 0 <= x' < x ==> ras[y, x'] == value
        {
          ras[y, x] := value;
        }
      }
      assert forall y :: 0 <= y < ydim ==> Grid()[y] == ConstGrid(ydim, xdim, value)[y];
    }

    /** An assignment to the single cell ras[y][x]. */
    method SetCell(y: nat, x: nat, v: real)
      requires Shaped() && y < ydim && x < xdim
      modifies ras
      ensures Grid() == Put(old(Grid()), y, x, v)
    {
      ras[y, x] := v;
      assert forall i :: 0 <= i < ydim ==> Grid()[i] == Put(old(Grid()), y, x, v)[i];
    }

    /** copy_rastercells: status 10 (and nothing copied) when the dimensions
        differ; otherwise every cell takes the source cell, with the source's
        no-data mapped to this raster's no-data. The source may be this raster. */
    method CopyRasterCells(src: Raster) returns (status: int)
      requires Shaped() && src.Shaped()
      modifies ras
      ensures status == 0 || status == 10
      ensures status == 10 <==> src.xdim != xdim || src.ydim != ydim
      ensures status == 10 ==> Grid() == old(Grid())
      ensures status == 0 ==> forall y, x :: 0 <= y < ydim && 0 <= x < xdim ==>
                ras[y, x] == CopyCell(old(src.ras[y, x]), src.nodataValue, nodataValue)
    {
      if src.xdim != xdim || src.ydim != ydim {
        return 10;
      }
      for y := 0 to ydim
        invariant forall y', x :: 0 <= y' < y && 0 <= x < xdim ==>
                    ras[y', x] == CopyCell(old(src.ras[y', x]), src.nodataValue, nodataValue)
        invariant forall y', x :: y <= y' < ydim && 0 <= x < xdim ==> src.ras[y', x] == old(src.ras[y', x])
      {
        for x := 0 to xdim
          invariant forall y', x' :: 0 <= y' < y && 0 <= x' < xdim ==>
                      ras[y', x'] == CopyCell(old(src.ras[y', x']), src.nodataValue, nodataValue)
          invariant forall x' :: 0 <= x' < x ==> ras[y, x'] == CopyCell(old(src.ras[y, x']), src.nodataValue, nodataValue)
          invariant forall y', x' :: y < y' < ydim && 0 <= x' < xdim ==> src.ras[y', x'] == old(src.ras[y', x'])
          invariant forall x' :: x <= x' < xdim ==> src.ras[y, x'] == old(src.ras[y, x'])
        {
          if src.ras[y, x] == src.nodataValue {
            ras[y, x] := nodataValue;
          } else {
            ras[y, x] := src.ras[y, x];
          }
        }
      }
      return 0;
    }

    /** sum: the sum of the valid cells. */
    method Sum() returns (s: real)
      requires Valid()
      ensures s == GridSum(Grid(), nodataValue)
    {
      ghost var g := Grid();
      s := 0.0;
      for y := 0 to ydim
        invariant s == GridSum(g[..y], nodataValue)
      {
        for x := 0 to xdim
          invariant s == GridSum(g[..y], nodataValue) + RowSum(g[y][..x], nodataValue)
        {
          assert g[y][..x + 1][..x] == g[y][..x];
          if ras[y, x] != nodataValue {
            s := s + ras[y, x];
          }
        }
        assert g[..y + 1][..y] == g[..y] && g[y][..xdim] == g[y];
      }
      assert g[..ydim] == g;
    }

    /** num_NAs: the number of no-data cells. */
    method NumNAs() returns (n: nat)
      requires Valid()
      ensures n == GridNAs(Grid(), nodataValue)
    {
      ghost var g := Grid();
      n := 0;
      for y := 0 to ydim
        invariant n == GridNAs(g[..y], nodataValue)
      {
        for x := 0 to xdim
          invariant n == GridNAs(g[..y], nodataValue) + RowNAs(g[y][..x], nodataValue)
        {
          assert g[y][..x + 1][..x] == g[y][..x];
          if ras[y, x] == nodataValue {
            n := n + 1;
          }
        }
        assert g[..y + 1][..y] == g[..y] && g[y][..xdim] == g[y];
      }
      assert g[..ydim] == g;
    }

    /** min: the running minimum over the valid cells, started at MIN_START. */
    method Min() returns (m: real)
      requires Valid()
      ensures m == GridMin(Grid(), nodataValue, MIN_START)
    {
      ghost var g := Grid();
      m := MIN_START;
      for y := 0 to ydim
        invariant m == GridMin(g[..y], nodataValue, MIN_START)
      {
        ghost var start := m;
        for x := 0 to xdim
          invariant m == RowMin(g[y][..x], nodataValue, start)
        {
          assert g[y][..x + 1][..x] == g[y][..x];
          if ras[y, x] != nodataValue {
            if ras[y, x] < m {
              m := ras[y, x];
            }
          }
        }
        assert g[..y + 1][..y] == g[..y] && g[y][..xdim] == g[y];
      }
      assert g[..ydim] == g;
    }

    /** max: the running maximum over the valid cells, started at MAX_START. */
    method Max() returns (m: real)
      requires Valid()
      ensures m == GridMax(Grid(), nodataValue, MAX_START)
    {
      ghost var g := Grid();
      m := MAX_START;
      for y := 0 to ydim
        invariant m == GridMax(g[..y], nodataValue, MAX_START)
      {
        ghost var start := m;
        for x := 0 to xdim
          invariant m == RowMax(g[y][..x], nodataValue, start)
        {
          assert g[y][..x + 1][..x] == g[y][..x];
          if ras[y, x] != nodataValue {
            if ras[y, x] > m {
              m := ras[y, x];
            }
          }
        }
        assert g[..y + 1][..y] == g[..y] && g[y][..xdim] == g[y];
      }
      assert g[..ydim] == g;
    }

    /** mean: no-data when every cell is no-data, else the sum over the number of valid cells. */
    method Mean() returns (m: real)
      requires Valid()
      ensures m == GridMean(Grid(), nodataValue, ydim, xdim)
    {
      var numberNAs := NumNAs();
      var sumval := Sum();
      if numberNAs == ydim * xdim {
        m := nodataValue;
      } else {
        m := sumval / ((ydim * xdim) as real - numberNAs as real);
      }
    }

    /** rooks_filter: `oput` first becomes all no-data, then each of its cells
        takes the mean of the valid values among the cell and its four read
        neighbours, or oput's no-data when none is valid. */
    method RooksFilter(oput: Raster)
      requires Valid() && Ready() && oput.Valid()
      requires oput.ydim == ydim && oput.xdim == xdim && oput.ras != ras
      modifies oput.ras
      ensures Tables(ydim, xdim, b.n1, b.s1, b.e1, b.w1)
      ensures oput.Grid() == RooksGrid(Grid(), b.n1, b.s1, b.e1, b.w1, nodataValue, oput.nodataValue)
    {
      ghost var g := Grid();
      ghost var t := [b.n1, b.s1, b.e1, b.w1];
      ghost var f := RooksGrid(g, t[0], t[1], t[2], t[3], nodataValue, oput.nodataValue);
      oput.SetNull();
      for y := 0 to ydim
        invariant g == Grid()
        invariant forall y', x :: 0 <= y' < y && 0 <= x < xdim ==> oput.ras[y', x] == f[y'][x]
      {
        var r := RooksRow(y, oput.nodataValue, g, t, f);
        oput.StoreRow(y, r, 0);
      }
      assert forall y :: 0 <= y < ydim ==> oput.Grid()[y] == f[y];
    }

    /** Row y of rooks_filter, computed from the unchanged input grid. */
    method RooksRow(y: nat, ndOut: real, ghost g: seq<seq<real>>, ghost t: seq<seq<int>>, ghost f: seq<seq<real>>)
      returns (r: seq<real>)
      requires Valid() && y < ydim
      requires g == Grid() && t == [b.n1, b.s1, b.e1, b.w1]
      requires Tables(ydim, xdim, t[0], t[1], t[2], t[3])
      requires f == RooksGrid(g, t[0], t[1], t[2], t[3], nodataValue, ndOut)
      ensures |r| == xdim && forall x :: 0 <= x < xdim ==> r[x] == f[y][x]
    {
      r := [];
      for x := 0 to xdim
        invariant |r| == x && forall x' :: 0 <= x' < x ==> r[x'] == f[y][x']
      {
        var v := RooksCell(y, x, ndOut, g, t, f);
        r := r + [v];
      }
    }

    /** The loop body of rooks_filter for one cell. */
    method RooksCell(y: nat, x: nat, ndOut: real, ghost g: seq<seq<real>>, ghost t: seq<seq<int>>, ghost f: seq<seq<real>>)
      returns (v: real)
      requires Valid() && y < ydim && x < xdim
      requires g == Grid() && t == [b.n1, b.s1, b.e1, b.w1]
      requires Tables(ydim, xdim, t[0], t[1], t[2], t[3])
      requires f == RooksGrid(g, t[0], t[1], t[2], t[3], nodataValue, ndOut)
      ensures v == f[y][x]
    {
      ghost var vals := RooksValues(g, t[0], t[1], t[2], t[3], y, x);
      var neighSum, neighCount := 0.0, 0;
      neighSum, neighCount := Accumulate(neighSum, neighCount, ras[y, x], vals, 0);
      neighSum, neighCount := Accumulate(neighSum, neighCount, ras[b.n1[y], x], vals, 1);
      neighSum, neighCount := Accumulate(neighSum, neighCount, ras[b.s1[y], x], vals, 2);
      neighSum, neighCount := Accumulate(neighSum, neighCount, ras[y, b.e1[x]], vals, 3);
      neighSum, neighCount := Accumulate(neighSum, neighCount, ras[y, b.w1[x]], vals, 4);
      assert vals[..5] == vals;
      if neighCount > 0 {
        v := neighSum / neighCount as real;
      } else {
        v := ndOut;
      }
    }

    /** queens_filter: as rooks_filter, over the cell and its eight read neighbours. */
    method QueensFilter(oput: Raster)
      requires Valid() && Ready() && oput.Valid()
      requires oput.ydim == ydim && oput.xdim == xdim && oput.ras != ras
      modifies oput.ras
      ensures Tables(ydim, xdim, b.n1, b.s1, b.e1, b.w1)
      ensures oput.Grid() == QueensGrid(Grid(), b.n1, b.s1, b.e1, b.w1, nodataValue, oput.nodataValue)
    {
      ghost var g := Grid();
      ghost var t := [b.n1, b.s1, b.e1, b.w1];
      ghost var f := QueensGrid(g, t[0], t[1], t[2], t[3], nodataValue, oput.nodataValue);
      oput.SetNull();
      for y := 0 to ydim
        invariant g == Grid()
        invariant forall y', x :: 0 <= y' < y && 0 <= x < xdim ==> oput.ras[y', x] == f[y'][x]
      {
        var r := QueensRow(y, oput.nodataValue, g, t, f);
        oput.StoreRow(y, r, 0);
      }
      assert forall y :: 0 <= y < ydim ==> oput.Grid()[y] == f[y];
    }

    /** Row y of queens_filter, computed from the unchanged input grid. */
    method QueensRow(y: nat, ndOut: real, ghost g: seq<seq<real>>, ghost t: seq<seq<int>>, ghost f: seq<seq<real>>)
      returns (r: seq<real>)
      requires Valid() && y < ydim
      requires g == Grid() && t == [b.n1, b.s1, b.e1, b.w1]
      requires Tables(ydim, xdim, t[0], t[1], t[2], t[3])
      requires f == QueensGrid(g, t[0], t[1], t[2], t[3], nodataValue, ndOut)
      ensures |r| == xdim && forall x :: 0 <= x < xdim ==> r[x] == f[y][x]
    {
      r := [];
      for x := 0 to xdim
        invariant |r| == x && forall x' :: 0 <= x' < x ==> r[x'] == f[y][x']
      {
        var v := QueensCell(y, x, ndOut, g, t, f);
        r := r + [v];
      }
    }

    /** The loop body of queens_filter for one cell. */
    method QueensCell(y: nat, x: nat, ndOut: real, ghost g: seq<seq<real>>, ghost t: seq<seq<int>>, ghost f: seq<seq<real>>)
      returns (v: real)
      requires Valid() && y < ydim && x < xdim
      requires g == Grid() && t == [b.n1, b.s1, b.e1, b.w1]
      requires Tables(ydim, xdim, t[0], t[1], t[2], t[3])
      requires f == QueensGrid(g, t[0], t[1], t[2], t[3], nodataValue, ndOut)
      ensures v == f[y][x]
    {
      ghost var vals := QueensValues(g, t[0], t[1], t[2], t[3], y, x);
      var neighSum, neighCount := 0.0, 0;
      neighSum, neighCount := Accumulate(neighSum, neighCount, ras[y, x], vals, 0);
      neighSum, neighCount := Accumulate(neighSum, neighCount, ras[b.n1[y], x], vals, 1);
      neighSum, neighCount := Accumulate(neighSum, neighCount, ras[b.s1[y], x], vals, 2);
      neighSum, neighCount := Accumulate(neighSum, neighCount, ras[y, b.e1[x]], vals, 3);
      neighSum, neighCount := Accumulate(neighSum, neighCount, ras[y, b.w1[x]], vals, 4);
      neighSum, neighCount := Accumulate(neighSum, neighCount, ras[b.n1[y], b.e1[x]], vals, 5);
      neighSum, neighCount := Accumulate(neighSum, neighCount, ras[b.n1[y], b.w1[x]], vals, 6);
      neighSum, neighCount := Accumulate(neighSum, neighCount, ras[b.s1[y], b.e1[x]], vals, 7);
      neighSum, neighCount := Accumulate(neighSum, neighCount, ras[b.s1[y], b.w1[x]], vals, 8);
      assert vals[..9] == vals;
      if neighCount > 0 {
        v := neighSum / neighCount as real;
      } else {
        v := ndOut;
      }
    }

    /** One neighbour of a filter: a valid value is added to the sum and counted. */
    method Accumulate(neighSum: real, neighCount: nat, v: real, ghost vals: seq<real>, ghost k: nat)
      returns (sum': real, count': nat)
      requires k < |vals| && vals[k] == v
      requires neighSum == RowSum(vals[..k], nodataValue) && neighCount == RowValid(vals[..k], nodataValue)
      ensures sum' == RowSum(vals[..k + 1], nodataValue) && count' == RowValid(vals[..k + 1], nodataValue)
    {
      assert vals[..k + 1][..k] == vals[..k];
      if v != nodataValue {
        sum', count' := neighSum + v, neighCount + 1;
      } else {
        sum', count' := neighSum, neighCount;
      }
    }

    /** The cell values as write_ascii_raster emits them: rows ydim - 1 down to
        0, each west to east (a no-data cell is written as the no-data value). */
    method WriteValues() returns (out: seq<real>)
      requires Valid()
      ensures out == FileOrder(Grid())
    {
      ghost var g := Grid();
      out := [];
      var y: int := ydim - 1;
      assert g[..ydim] == g;
      while y > -1
        invariant -1 <= y < ydim
        invariant out + FileOrder(g[..y + 1]) == FileOrder(g)
      {
        var row := WriteRow(y);
        out := out + row;
        assert g[..y + 1][..y] == g[..y];
        y := y - 1;
      }
    }

    /** The values write_ascii_raster emits for row y, west to east. */
    method WriteRow(y: nat) returns (out: seq<real>)
      requires Valid() && y < ydim
      ensures out == Grid()[y]
    {
      ghost var r := Grid()[y];
      out := [];
      for x := 0 to xdim
        invariant out == r[..x]
      {
        var outValue;
        if ras[y, x] == nodataValue {
          outValue := nodataValue;
        } else {
          outValue := ras[y, x];
        }
        out := out + [outValue];
        assert r[..x + 1] == r[..x] + [r[x]];
      }
      assert r[..xdim] == r;
    }

    /** The cell values read_ascii_raster stores from a file body of the
        raster's own size: rows ydim - 1 down to 0, each west to east. */
    method ReadValues(vals: seq<real>)
      requires Valid() && |vals| == ydim * xdim
      modifies ras
      ensures Grid() == FromFileOrder(vals, ydim, xdim)
    {
      var k := 0;
      var y: int := ydim - 1;
      ghost var done: seq<seq<real>> := [];
      assert vals[0..] == vals;
      while y > -1
        invariant -1 <= y < ydim
        invariant 0 <= k <= |vals| && |vals| - k == (y + 1) * xdim
        invariant |done| == ydim - 1 - y
        invariant FromFileOrder(vals[k..], y + 1, xdim) + done == FromFileOrder(vals, ydim, xdim)
        invariant forall i :: 0 <= i < |done| ==> |done[i]| == xdim
        invariant forall y', x :: y < y' < ydim && 0 <= x < xdim ==> ras[y', x] == done[y' - y - 1][x]
      {
        MulPred(y + 1, xdim);
        ghost var k0 := k;
        StoreRow(y, vals, k);
        k := k + xdim;
        ghost var row := vals[k0..k];
        assert vals[k0..][xdim..] == vals[k..];
        assert vals[k0..][..xdim] == row;
        done := [row] + done;
        y := y - 1;
      }
      forall y' | 0 <= y' < ydim
        ensures Grid()[y'] == done[y']
      {
        assert forall x :: 0 <= x < xdim ==> Grid()[y'][x] == ras[y', x] == done[y'][x];
      }
    }

    /** Stores vals[k..k + xdim] into row y, west to east (the inner loop of
        read_ascii_raster, and of the filters once a row is computed). */
    method StoreRow(y: nat, vals: seq<real>, k: nat)
      requires Valid() && y < ydim && k + xdim <= |vals|
      modifies ras
      ensures forall x :: 0 <= x < xdim ==> ras[y, x] == vals[k + x]
      ensures forall y', x :: 0 <= y' < ydim && y' != y && 0 <= x < xdim ==> ras[y', x] == old(ras[y', x])
    {
      for x := 0 to xdim
        invariant forall x' :: 0 <= x' < x ==> ras[y, x'] == vals[k + x']
        invariant forall y', x' :: 0 <= y' < ydim && y' != y && 0 <= x' < xdim ==> ras[y', x'] == old(ras[y', x'])
      {
        ras[y, x] := vals[k + x];
      }
    }
  }
}
