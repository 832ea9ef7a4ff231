/** The STAB engine's timestep phases as functions on the whole model state:
    each phase of stab.hpp maps the rasters and the log accumulators before
    it to those after it, cell by cell or visit by visit in the order the
    source sweeps them. */
module StabState {
  import opened Boundaries
  import opened Raster
  import opened StabRules

  // ---------------------------------------------------------------------------
  // The state.
  // ---------------------------------------------------------------------------

  /** The stab_log accumulators the engine adds to. */
  datatype Ledger = Ledger(
    qAd: real, qSqN: real, qSqS: real, qSqE: real, qSqW: real,
    qEntrain: real, qDistrain: real, totalBleed: real,
    iceloadBleed: real, surfBleed: real, abrasion: real)

  const ZERO_LEDGER := Ledger(0.0, 0.0, 0.0, 0.0, 0.0, 0.0, 0.0, 0.0, 0.0, 0.0, 0.0)

  /** The thirteen rasters of the engine and its log. */
  datatype State = State(
    surf: seq<seq<real>>, bsmt: seq<seq<real>>, ice: seq<seq<real>>, nIce: seq<seq<real>>,
    basalDef: seq<seq<real>>, basalPres: seq<seq<real>>, zeroElev: seq<seq<real>>,
    contact: seq<seq<real>>, iceload: seq<seq<real>>, nIceload: seq<seq<real>>,
    dsurf: seq<seq<real>>, diceload: seq<seq<real>>, erodibility: seq<seq<real>>,
    sl: Ledger)

  /** The neighbour tables the engine reads: read tables and move tables. */
  datatype Topo = Topo(n1: seq<int>, s1: seq<int>, e1: seq<int>, w1: seq<int>,
                       n1m: seq<int>, s1m: seq<int>, e1m: seq<int>, w1m: seq<int>)

  ghost predicate TopoOk(t: Topo, ydim: nat, xdim: nat)
  {
    && |t.n1| == ydim && |t.s1| == ydim && |t.n1m| == ydim && |t.s1m| == ydim
    && |t.e1| == xdim && |t.w1| == xdim && |t.e1m| == xdim && |t.w1m| == xdim
    && InRange(ydim, t.n1) && InRange(ydim, t.s1) && InRange(xdim, t.e1) && InRange(xdim, t.w1)
    && InRangeOrToxic(ydim, t.n1m, TOXIC_COORD) && InRangeOrToxic(ydim, t.s1m, TOXIC_COORD)
    && InRangeOrToxic(xdim, t.e1m, TOXIC_COORD) && InRangeOrToxic(xdim, t.w1m, TOXIC_COORD)
  }

  /** What stays fixed during a run: the parameters, the tables, the global
      basal pressure and the fudge. */
  datatype Env = Env(sim: Sim, topo: Topo, cellAvg: real, fudge: real)

  ghost predicate Shaped(st: State, ydim: nat, xdim: nat)
  {
    && IsGrid(st.surf, ydim, xdim) && IsGrid(st.bsmt, ydim, xdim) && IsGrid(st.ice, ydim, xdim)
    && IsGrid(st.nIce, ydim, xdim) && IsGrid(st.basalDef, ydim, xdim) && IsGrid(st.basalPres, ydim, xdim)
    && IsGrid(st.zeroElev, ydim, xdim) && IsGrid(st.contact, ydim, xdim) && IsGrid(st.iceload, ydim, xdim)
    && IsGrid(st.nIceload, ydim, xdim) && IsGrid(st.dsurf, ydim, xdim) && IsGrid(st.diceload, ydim, xdim)
    && IsGrid(st.erodibility, ydim, xdim)
  }

  ghost predicate Fits(e: Env, st: State)
  {
    SimOk(e.sim) && TopoOk(e.topo, e.sim.ydim, e.sim.xdim) && Shaped(st, e.sim.ydim, e.sim.xdim)
  }

  // ---------------------------------------------------------------------------
  // Totals and sweeps over grids.
  // ---------------------------------------------------------------------------

  function RowTotal(r: seq<real>): real
  {
    if |r| == 0 then 0.0 else RowTotal(r[..|r| - 1]) + r[|r| - 1]
  }

  /** The plain sum of every cell of a grid. */
  function Total(g: seq<seq<real>>): real
  {
    if |g| == 0 then 0.0 else Total(g[..|g| - 1]) + RowTotal(g[|g| - 1])
  }

  lemma {:induction false} RowTotalUpdate(r: seq<real>, x: nat, v: real)
    requires x < |r|
    ensures RowTotal(r[x := v]) == RowTotal(r) - r[x] + v
  {
    var n := |r|;
    if x == n - 1 {
      assert r[x := v][..n - 1] == r[..n - 1];
    } else {
      assert r[x := v][..n - 1] == r[..n - 1][x := v];
      RowTotalUpdate(r[..n - 1], x, v);
    }
  }

  /** Changing one cell changes the total by the change of that cell. */
  lemma {:induction false} TotalPut(g: seq<seq<real>>, y: nat, x: nat, v: real)
    requires y < |g| && x < |g[y]|
    ensures Total(Put(g, y, x, v)) == Total(g) - g[y][x] + v
  {
    var n := |g|;
    if y == n - 1 {
      assert Put(g, y, x, v)[..n - 1] == g[..n - 1];
      RowTotalUpdate(g[y], x, v);
    } else {
      assert Put(g, y, x, v)[..n - 1] == Put(g[..n - 1], y, x, v);
      TotalPut(g[..n - 1], y, x, v);
    }
  }

  lemma {:induction false} RowTotalZero(n: nat)
    ensures RowTotal(seq(n, _ => 0.0)) == 0.0
  {
    if n > 0 {
      assert seq(n, _ => 0.0)[..n - 1] == seq(n - 1, _ => 0.0);
      RowTotalZero(n - 1);
    }
  }

  lemma {:induction false} TotalZero(ydim: nat, xdim: nat)
    ensures Total(ConstGrid(ydim, xdim, 0.0)) == 0.0
  {
    if ydim > 0 {
      assert ConstGrid(ydim, xdim, 0.0)[..ydim - 1] == ConstGrid(ydim - 1, xdim, 0.0);
      assert ConstGrid(ydim, xdim, 0.0)[ydim - 1] == seq(xdim, _ => 0.0);
      TotalZero(ydim - 1, xdim);
      RowTotalZero(xdim);
    }
  }

  /** Cellwise sum of two grids of the same shape. */
  function AddGrids(a: seq<seq<real>>, b: seq<seq<real>>, ydim: nat, xdim: nat): (r: seq<seq<real>>)
    requires IsGrid(a, ydim, xdim) && IsGrid(b, ydim, xdim)
    ensures IsGrid(r, ydim, xdim)
    ensures forall y, x :: 0 <= y < ydim && 0 <= x < xdim ==> r[y][x] == a[y][x] + b[y][x]
  {
    seq(ydim, y requires 0 <= y < ydim => seq(xdim, x requires 0 <= x < xdim => a[y][x] + b[y][x]))
  }

  lemma {:induction false} RowTotalAdd(r: seq<real>, s: seq<real>, t: seq<real>)
    requires |r| == |s| == |t| && forall i :: 0 <= i < |t| ==> t[i] == r[i] + s[i]
    ensures RowTotal(t) == RowTotal(r) + RowTotal(s)
  {
    var n := |t|;
    if n > 0 {
      RowTotalAdd(r[..n - 1], s[..n - 1], t[..n - 1]);
    }
  }

  /** The total of a cellwise sum is the sum of the totals. */
  lemma {:induction false} TotalAdd(a: seq<seq<real>>, b: seq<seq<real>>, c: seq<seq<real>>, ydim: nat, xdim: nat)
    requires IsGrid(a, ydim, xdim) && IsGrid(b, ydim, xdim) && IsGrid(c, ydim, xdim)
    requires forall y, x :: 0 <= y < ydim && 0 <= x < xdim ==> c[y][x] == a[y][x] + b[y][x]
    ensures Total(c) == Total(a) + Total(b)
  {
    if ydim > 0 {
      TotalAdd(a[..ydim - 1], b[..ydim - 1], c[..ydim - 1], ydim - 1, xdim);
      RowTotalAdd(a[ydim - 1], b[ydim - 1], c[ydim - 1]);
    }
  }

  /** A row or grid whose every entry lies within c of zero totals within
      its number of entries times c of zero. */
  lemma {:induction false} RowTotalBound(r: seq<real>, c: real)
    requires forall i :: 0 <= i < |r| ==> -c <= r[i] <= c
    ensures -Times(|r|, c) <= RowTotal(r) <= Times(|r|, c)
  {
    if |r| > 0 {
      RowTotalBound(r[..|r| - 1], c);
    }
  }

  lemma {:induction false} TotalBound(g: seq<seq<real>>, ydim: nat, xdim: nat, c: real)
    requires IsGrid(g, ydim, xdim)
    requires forall y, x :: 0 <= y < ydim && 0 <= x < xdim ==> -c <= g[y][x] <= c
    ensures -Times(ydim, Times(xdim, c)) <= Total(g) <= Times(ydim, Times(xdim, c))
  {
    if ydim > 0 {
      assert IsGrid(g[..ydim - 1], ydim - 1, xdim);
      TotalBound(g[..ydim - 1], ydim - 1, xdim, c);
      RowTotalBound(g[ydim - 1], c);
    }
  }

  /** Whether cell (i, j) comes before (y, x) in a row-major sweep. */
  predicate Before(i: int, j: int, y: int, x: int)
  {
    i < y || (i == y && j < x)
  }

  /** A grid partway through a row-major sweep from a to b: cells before
      (y, x) already hold b, the others still hold a. */
  function Mix(a: seq<seq<real>>, b: seq<seq<real>>, ydim: nat, xdim: nat, y: int, x: int): (r: seq<seq<real>>)
    requires IsGrid(a, ydim, xdim) && IsGrid(b, ydim, xdim)
    ensures IsGrid(r, ydim, xdim)
    ensures forall i, j :: 0 <= i < ydim && 0 <= j < xdim ==> r[i][j] == if Before(i, j, y, x) then b[i][j] else a[i][j]
  {
    seq(ydim, i requires 0 <= i < ydim => seq(xdim, j requires 0 <= j < xdim => if Before(i, j, y, x) then b[i][j] else a[i][j]))
  }

  lemma MixStart(a: seq<seq<real>>, b: seq<seq<real>>, ydim: nat, xdim: nat)
    requires IsGrid(a, ydim, xdim) && IsGrid(b, ydim, xdim)
    ensures Mix(a, b, ydim, xdim, 0, 0) == a
  {
    assert forall i :: 0 <= i < ydim ==> Mix(a, b, ydim, xdim, 0, 0)[i] == a[i];
  }

  lemma MixDone(a: seq<seq<real>>, b: seq<seq<real>>, ydim: nat, xdim: nat)
    requires IsGrid(a, ydim, xdim) && IsGrid(b, ydim, xdim)
    ensures Mix(a, b, ydim, xdim, ydim, 0) == b
  {
    assert forall i :: 0 <= i < ydim ==> Mix(a, b, ydim, xdim, ydim, 0)[i] == b[i];
  }

  /** One step of the sweep writes b's value into cell (y, x). */
  lemma MixStep(a: seq<seq<real>>, b: seq<seq<real>>, ydim: nat, xdim: nat, y: nat, x: nat)
    requires IsGrid(a, ydim, xdim) && IsGrid(b, ydim, xdim) && y < ydim && x < xdim
    ensures Put(Mix(a, b, ydim, xdim, y, x), y, x, b[y][x]) == Mix(a, b, ydim, xdim, y, x + 1)
    ensures Mix(a, b, ydim, xdim, y, x)[y][x] == a[y][x]
  {
    var l := Put(Mix(a, b, ydim, xdim, y, x), y, x, b[y][x]);
    var r := Mix(a, b, ydim, xdim, y, x + 1);
    assert forall i :: 0 <= i < ydim ==> l[i] == r[i];
  }

  /** The end of a row is the start of the next. */
  lemma MixRow(a: seq<seq<real>>, b: seq<seq<real>>, ydim: nat, xdim: nat, y: nat)
    requires IsGrid(a, ydim, xdim) && IsGrid(b, ydim, xdim)
    ensures Mix(a, b, ydim, xdim, y, xdim) == Mix(a, b, ydim, xdim, y + 1, 0)
  {
    assert forall i :: 0 <= i < ydim ==> Mix(a, b, ydim, xdim, y, xdim)[i] == Mix(a, b, ydim, xdim, y + 1, 0)[i];
  }

  /** The same sweep cell by cell: a after writing b's value into every cell
      before (y, x), in row-major order. */
  function Fill(a: seq<seq<real>>, b: seq<seq<real>>, ydim: nat, xdim: nat, y: nat, x: nat): (r: seq<seq<real>>)
    requires IsGrid(a, ydim, xdim) && IsGrid(b, ydim, xdim)
    requires y <= ydim && x <= xdim && (y < ydim || x == 0)
    ensures IsGrid(r, ydim, xdim)
    decreases y, x
  {
    if x > 0 then Put(Fill(a, b, ydim, xdim, y, x - 1), y, x - 1, b[y][x - 1])
    else if y > 0 then Fill(a, b, ydim, xdim, y - 1, xdim)
    else a
  }

  /** Writing cell by cell reaches the closed form at every cell. */
  lemma {:induction false} FillIsMix(a: seq<seq<real>>, b: seq<seq<real>>, ydim: nat, xdim: nat, y: nat, x: nat)
    requires IsGrid(a, ydim, xdim) && IsGrid(b, ydim, xdim)
    requires y <= ydim && x <= xdim && (y < ydim || x == 0)
    ensures Fill(a, b, ydim, xdim, y, x) == Mix(a, b, ydim, xdim, y, x)
    decreases y, x
  {
    if x > 0 {
      FillIsMix(a, b, ydim, xdim, y, x - 1);
      MixStep(a, b, ydim, xdim, y, x - 1);
    } else if y > 0 {
      FillIsMix(a, b, ydim, xdim, y - 1, xdim);
      MixRow(a, b, ydim, xdim, y - 1);
    } else {
      MixStart(a, b, ydim, xdim);
    }
  }

  /** A cell the sweep has not reached still holds its old value. */
  lemma FillAhead(a: seq<seq<real>>, b: seq<seq<real>>, ydim: nat, xdim: nat, y: nat, x: nat)
    requires IsGrid(a, ydim, xdim) && IsGrid(b, ydim, xdim) && y < ydim && x < xdim
    ensures Fill(a, b, ydim, xdim, y, x)[y][x] == a[y][x]
  {
    FillIsMix(a, b, ydim, xdim, y, x);
  }

  /** The complete sweep leaves b. */
  lemma FillDone(a: seq<seq<real>>, b: seq<seq<real>>, ydim: nat, xdim: nat)
    requires IsGrid(a, ydim, xdim) && IsGrid(b, ydim, xdim)
    ensures Fill(a, b, ydim, xdim, ydim, 0) == b
  {
    FillIsMix(a, b, ydim, xdim, ydim, 0);
    MixDone(a, b, ydim, xdim);
  }

  /** The sum of b over the cells before (y, x), added in row-major order:
      what a log accumulates along a sweep. */
  function Upto(b: seq<seq<real>>, ydim: nat, xdim: nat, y: nat, x: nat): real
    requires IsGrid(b, ydim, xdim) && y <= ydim && x <= xdim && (y < ydim || x == 0)
    decreases y, x
  {
    if x > 0 then Upto(b, ydim, xdim, y, x - 1) + b[y][x - 1]
    else if y > 0 then Upto(b, ydim, xdim, y - 1, xdim)
    else 0.0
  }

  /** The partial sum is the total of the sweep that starts from zeros. */
  lemma {:induction false} UptoIsFillTotal(b: seq<seq<real>>, ydim: nat, xdim: nat, y: nat, x: nat)
    requires IsGrid(b, ydim, xdim) && y <= ydim && x <= xdim && (y < ydim || x == 0)
    ensures Upto(b, ydim, xdim, y, x) == Total(Fill(ConstGrid(ydim, xdim, 0.0), b, ydim, xdim, y, x))
    decreases y, x
  {
    var z := ConstGrid(ydim, xdim, 0.0);
    if x > 0 {
      var f := Fill(z, b, ydim, xdim, y, x - 1);
      UptoIsFillTotal(b, ydim, xdim, y, x - 1);
      FillAhead(z, b, ydim, xdim, y, x - 1);
      TotalPut(f, y, x - 1, b[y][x - 1]);
    } else if y > 0 {
      UptoIsFillTotal(b, ydim, xdim, y - 1, xdim);
    } else {
      TotalZero(ydim, xdim);
    }
  }

  /** Adding up every cell along the sweep gives the total. */
  lemma UptoDone(b: seq<seq<real>>, ydim: nat, xdim: nat)
    requires IsGrid(b, ydim, xdim)
    ensures Upto(b, ydim, xdim, ydim, 0) == Total(b)
  {
    UptoIsFillTotal(b, ydim, xdim, ydim, 0);
    FillDone(ConstGrid(ydim, xdim, 0.0), b, ydim, xdim);
  }

  // ---------------------------------------------------------------------------
  // calc_basal_pres and deposit_sq_sed on the state.
  // ---------------------------------------------------------------------------

  function PresAt(e: Env, st: State, y: nat, x: nat): (r: State)
    requires Fits(e, st) && y < e.sim.ydim && x < e.sim.xdim
    ensures Fits(e, r)
  {
    var pc := BasalPres(e.cellAvg, st.basalDef[y][x], e.sim, e.fudge);
    st.(basalPres := Put(st.basalPres, y, x, pc.pres), contact := Put(st.contact, y, x, pc.contact))
  }

  /** A deposit target: a cell of the grid, or a move-table entry that left it. */
  predicate Target(y: int, x: int, ydim: nat, xdim: nat)
  {
    (y == TOXIC_COORD || 0 <= y < ydim) && (x == TOXIC_COORD || 0 <= x < xdim)
  }

  /** The writes of a deposit into cell (y, x), before the pressure is
      recalculated. */
  function Store(e: Env, st: State, y: nat, x: nat, d: DepositOut): (r: State)
    requires Fits(e, st) && y < e.sim.ydim && x < e.sim.xdim
    ensures Fits(e, r)
  {
    st.(surf := Put(st.surf, y, x, d.surf), ice := Put(st.ice, y, x, d.ice),
        contact := Put(st.contact, y, x, d.contact), basalDef := Put(st.basalDef, y, x, d.basalDef))
  }

  /** deposit_sq_sed: nothing for q <= 0; a target outside the grid bleeds q
      out of the model; otherwise the cell takes the deposit and its basal
      pressure is recalculated. */
  function DepositSq(e: Env, st: State, y: int, x: int, q: real): (r: State)
    requires Fits(e, st) && Target(y, x, e.sim.ydim, e.sim.xdim)
    ensures Fits(e, r)
  {
    if q > 0.0 then
      if y != TOXIC_COORD && x != TOXIC_COORD then
        PresAt(e, Store(e, st, y, x, DepositCell(st.surf[y][x], st.ice[y][x], st.contact[y][x], st.basalDef[y][x], q)), y, x)
      else st.(sl := st.sl.(totalBleed := st.sl.totalBleed + q))
    else st
  }

  /** What a deposit adds to the sediment plus the bleed: the rise of the
      target cell, or q itself when it leaves the grid. */
  function Landed(e: Env, st: State, y: int, x: int, q: real): real
    requires Fits(e, st) && Target(y, x, e.sim.ydim, e.sim.xdim)
  {
    if q <= 0.0 then 0.0
    else if y == TOXIC_COORD || x == TOXIC_COORD then q
    else DepositSq(e, st, y, x, q).surf[y][x] - st.surf[y][x]
  }

  /** A deposit of q > 0 lands in full, except where it closes a cavity: it
      then lands the room that was left, which is less than q + SNAP_TOL.
      Sediment plus bleed grows by exactly what lands; the target surface
      ends at or below the ice; no other cell's surface or ice changes. */
  lemma DepositSqMass(e: Env, st: State, y: int, x: int, q: real)
    requires Fits(e, st) && Target(y, x, e.sim.ydim, e.sim.xdim)
    ensures var r := DepositSq(e, st, y, x, q);
      && Total(r.surf) + r.sl.totalBleed == Total(st.surf) + st.sl.totalBleed + Landed(e, st, y, x, q)
      && (q <= 0.0 ==> r == st)
      && (q > 0.0 ==> Landed(e, st, y, x, q) < q + SNAP_TOL)
      && (q > 0.0 && (y == TOXIC_COORD || x == TOXIC_COORD) ==> r == st.(sl := st.sl.(totalBleed := st.sl.totalBleed + q)))
      && (q > 0.0 && y != TOXIC_COORD && x != TOXIC_COORD ==>
            && r.sl == st.sl
            && r.surf[y][x] <= r.ice[y][x]
            && (Landed(e, st, y, x, q) == q ||
                (st.contact[y][x] == 0.0 && r.surf[y][x] == st.ice[y][x]))
            && (forall i, j :: 0 <= i < e.sim.ydim && 0 <= j < e.sim.xdim && (i != y || j != x) ==>
                  r.surf[i][j] == st.surf[i][j] && r.ice[i][j] == st.ice[i][j]))
  {
    if q > 0.0 && y != TOXIC_COORD && x != TOXIC_COORD {
      var d := DepositCell(st.surf[y][x], st.ice[y][x], st.contact[y][x], st.basalDef[y][x], q);
      DepositBelowIce(st.surf[y][x], st.ice[y][x], st.contact[y][x], st.basalDef[y][x], q);
      TotalPut(st.surf, y, x, d.surf);
    }
  }

  // ---------------------------------------------------------------------------
  // squish_sediment.
  // ---------------------------------------------------------------------------

  function SqPot(e: Env, st: State, y: nat, x: nat, yt: nat, xt: nat): real
    requires Fits(e, st) && y < e.sim.ydim && x < e.sim.xdim && yt < e.sim.ydim && xt < e.sim.xdim
  {
    SqPotential(st.basalPres[y][x], st.basalPres[yt][xt], e.sim.cellsize, e.sim,
                st.contact[yt][xt], st.basalDef[y][x], st.basalDef[yt][xt], st.ice[yt][xt], st.surf[yt][xt])
  }

  /** The four squish potentials of a cell towards its read neighbours. */
  function SquishRequest(e: Env, st: State, y: nat, x: nat): Fluxes
    requires Fits(e, st) && y < e.sim.ydim && x < e.sim.xdim
  {
    var t := e.topo;
    Fluxes(SqPot(e, st, y, x, t.n1[y], x), SqPot(e, st, y, x, t.s1[y], x),
           SqPot(e, st, y, x, y, t.e1[x]), SqPot(e, st, y, x, y, t.w1[x]))
  }

  /** The squish source after lowering by req: surface and deformation drop,
      the ice follows the surface, and the basal pressure is recalculated. */
  function Lowered(e: Env, st: State, y: nat, x: nat, req: real): (r: State)
    requires Fits(e, st) && y < e.sim.ydim && x < e.sim.xdim
    ensures Fits(e, r)
  {
    var s := st.surf[y][x] - req;
    PresAt(e, Store(e, st, y, x, DepositOut(s, s, st.contact[y][x], st.basalDef[y][x] - req)), y, x)
  }

  /** The source of a squish on or above the basement stays there, its ice
      rests on its surface, and the sediment total drops by the request. */
  lemma LoweredSource(e: Env, st: State, y: nat, x: nat)
    requires Fits(e, st) && y < e.sim.ydim && x < e.sim.xdim
    requires st.surf[y][x] >= st.bsmt[y][x]
    requires SquishLimit(SquishRequest(e, st, y, x), st.surf[y][x], st.bsmt[y][x], st.zeroElev[y][x]).Done?
    ensures var g := SquishLimit(SquishRequest(e, st, y, x), st.surf[y][x], st.bsmt[y][x], st.zeroElev[y][x]).value;
      var r := Lowered(e, st, y, x, Req(g));
      && r.surf[y][x] >= r.bsmt[y][x] && r.ice[y][x] == r.surf[y][x]
      && Total(r.surf) == Total(st.surf) - Req(g)
  {
    var g := SquishLimit(SquishRequest(e, st, y, x), st.surf[y][x], st.bsmt[y][x], st.zeroElev[y][x]).value;
    SquishKeepsBasement(SquishRequest(e, st, y, x), st.surf[y][x], st.bsmt[y][x], st.zeroElev[y][x]);
    TotalPut(st.surf, y, x, st.surf[y][x] - Req(g));
  }

  /** The logged squish after a visit's four deposits. */
  function LogSquish(l: Ledger, g: Fluxes): Ledger
  {
    l.(qSqN := l.qSqN + g.n, qSqS := l.qSqS + g.s, qSqE := l.qSqE + g.e, qSqW := l.qSqW + g.w)
  }

  /** One visit of squish_sediment: a contact cell pushes its limited squish
      to its four move neighbours. */
  function SquishVisit(e: Env, st: State, y: nat, x: nat): (r: Outcome<State>)
    requires Fits(e, st) && y < e.sim.ydim && x < e.sim.xdim
    ensures r.Done? ==> Fits(e, r.value)
  {
    if st.contact[y][x] == 1.0 then
      match SquishLimit(SquishRequest(e, st, y, x), st.surf[y][x], st.bsmt[y][x], st.zeroElev[y][x])
      case Halt(c) => Halt(c)
      case Done(g) =>
        Done(Spread(e, Lowered(e, st, y, x, Req(g)), y, x, g))
    else Done(st)
  }

  /** The four deposits of squish g from cell (y, x) at its move neighbours,
      then the logged squish. */
  function Spread(e: Env, st: State, y: nat, x: nat, g: Fluxes): (r: State)
    requires Fits(e, st) && y < e.sim.ydim && x < e.sim.xdim
    ensures Fits(e, r)
  {
    var t := e.topo;
    var s2 := DepositSq(e, st, t.n1m[y], x, g.n);
    var s3 := DepositSq(e, s2, t.s1m[y], x, g.s);
    var s4 := DepositSq(e, s3, y, t.e1m[x], g.e);
    var s5 := DepositSq(e, s4, y, t.w1m[x], g.w);
    s5.(sl := LogSquish(s5.sl, g))
  }

  /** Visits that all lie in the grid. */
  ghost predicate InGrid(ys: seq<int>, xs: seq<int>, ydim: nat, xdim: nat)
  {
    |ys| == |xs| && forall i :: 0 <= i < |ys| ==> 0 <= ys[i] < ydim && 0 <= xs[i] < xdim
  }

  /** The first k visits of squish_sediment, in poll order; a halt stops it. */
  function Squish(e: Env, st: State, ys: seq<int>, xs: seq<int>, k: nat): (r: Outcome<State>)
    requires Fits(e, st) && InGrid(ys, xs, e.sim.ydim, e.sim.xdim) && k <= |ys|
    ensures r.Done? ==> Fits(e, r.value)
    decreases k
  {
    if k == 0 then Done(st)
    else match Squish(e, st, ys, xs, k - 1)
      case Halt(c) => Halt(c)
      case Done(s) => SquishVisit(e, s, ys[k - 1], xs[k - 1])
  }

  /** The rasters a squish leaves alone agree in a and b. */
  predicate SameRest(a: State, b: State)
  {
    a.bsmt == b.bsmt && a.zeroElev == b.zeroElev && a.iceload == b.iceload && a.nIce == b.nIce &&
    a.nIceload == b.nIceload && a.dsurf == b.dsurf && a.diceload == b.diceload && a.erodibility == b.erodibility
  }

  lemma VisitKeepsRest(e: Env, st: State, y: nat, x: nat)
    requires Fits(e, st) && y < e.sim.ydim && x < e.sim.xdim
    requires SquishVisit(e, st, y, x).Done?
    ensures SameRest(SquishVisit(e, st, y, x).value, st)
  {
    if st.contact[y][x] == 1.0 {
      var g := SquishLimit(SquishRequest(e, st, y, x), st.surf[y][x], st.bsmt[y][x], st.zeroElev[y][x]).value;
      var t := e.topo;
      var s1 := Lowered(e, st, y, x, Req(g));
      var s2 := DepositSq(e, s1, t.n1m[y], x, g.n);
      var s3 := DepositSq(e, s2, t.s1m[y], x, g.s);
      var s4 := DepositSq(e, s3, y, t.e1m[x], g.e);
      DepositKeepsRest(e, s1, t.n1m[y], x, g.n);
      DepositKeepsRest(e, s2, t.s1m[y], x, g.s);
      DepositKeepsRest(e, s3, y, t.e1m[x], g.e);
      DepositKeepsRest(e, s4, y, t.w1m[x], g.w);
    }
  }

  lemma DepositKeepsRest(e: Env, st: State, y: int, x: int, q: real)
    requires Fits(e, st) && Target(y, x, e.sim.ydim, e.sim.xdim)
    ensures SameRest(DepositSq(e, st, y, x, q), st)
  {
  }

  /** Mass balance of one squish visit: the source gives up the limited
      request, and sediment plus bleed gains what the four deposits land.
      With no negative flux the visit creates at most 4 * SNAP_TOL of
      sediment, and none when every deposit lands in full. */
  lemma VisitMass(e: Env, st: State, y: nat, x: nat)
    requires Fits(e, st) && y < e.sim.ydim && x < e.sim.xdim
    requires st.contact[y][x] == 1.0
    requires SquishLimit(SquishRequest(e, st, y, x), st.surf[y][x], st.bsmt[y][x], st.zeroElev[y][x]).Done?
    ensures var g := SquishLimit(SquishRequest(e, st, y, x), st.surf[y][x], st.bsmt[y][x], st.zeroElev[y][x]).value;
      var t := e.topo;
      var s1 := Lowered(e, st, y, x, Req(g));
      var s2 := DepositSq(e, s1, t.n1m[y], x, g.n);
      var s3 := DepositSq(e, s2, t.s1m[y], x, g.s);
      var s4 := DepositSq(e, s3, y, t.e1m[x], g.e);
      var r := SquishVisit(e, st, y, x).value;
      var landed := Landed(e, s1, t.n1m[y], x, g.n) + Landed(e, s2, t.s1m[y], x, g.s) +
                    Landed(e, s3, y, t.e1m[x], g.e) + Landed(e, s4, y, t.w1m[x], g.w);
      && Total(r.surf) + r.sl.totalBleed == Total(st.surf) + st.sl.totalBleed - Req(g) + landed
      && (g.n >= 0.0 && g.s >= 0.0 && g.e >= 0.0 && g.w >= 0.0 ==> landed - Req(g) < 4.0 * SNAP_TOL)
  {
    var g := SquishLimit(SquishRequest(e, st, y, x), st.surf[y][x], st.bsmt[y][x], st.zeroElev[y][x]).value;
    var t := e.topo;
    var s1 := Lowered(e, st, y, x, Req(g));
    var s2 := DepositSq(e, s1, t.n1m[y], x, g.n);
    var s3 := DepositSq(e, s2, t.s1m[y], x, g.s);
    var s4 := DepositSq(e, s3, y, t.e1m[x], g.e);
    var s5 := DepositSq(e, s4, y, t.w1m[x], g.w);
    assert SquishVisit(e, st, y, x).value == s5.(sl := LogSquish(s5.sl, g));
    LoweredMass(e, st, y, x, Req(g));
    DepositSqMass(e, s1, t.n1m[y], x, g.n);
    DepositSqMass(e, s2, t.s1m[y], x, g.s);
    DepositSqMass(e, s3, y, t.e1m[x], g.e);
    DepositSqMass(e, s4, y, t.w1m[x], g.w);
  }

  lemma LoweredMass(e: Env, st: State, y: nat, x: nat, req: real)
    requires Fits(e, st) && y < e.sim.ydim && x < e.sim.xdim
    ensures Total(Lowered(e, st, y, x, req).surf) == Total(st.surf) - req
    ensures Lowered(e, st, y, x, req).sl == st.sl
  {
    TotalPut(st.surf, y, x, st.surf[y][x] - req);
  }

  /** A squish only moves sediment, ice, deformation, pressure, contact and
      the log: the basement, the iceload and every other raster keep their
      values. */
  lemma {:induction false} SquishKeepsRest(e: Env, st: State, ys: seq<int>, xs: seq<int>, k: nat)
    requires Fits(e, st) && InGrid(ys, xs, e.sim.ydim, e.sim.xdim) && k <= |ys|
    requires Squish(e, st, ys, xs, k).Done?
    ensures SameRest(Squish(e, st, ys, xs, k).value, st)
  {
    if k > 0 {
      var s := Squish(e, st, ys, xs, k - 1);
      SquishKeepsRest(e, st, ys, xs, k - 1);
      VisitKeepsRest(e, s.value, ys[k - 1], xs[k - 1]);
    }
  }

  /** A squish that halted stays halted with the same status: the visits
      after it are never made. */
  lemma {:induction false} SquishHaltStays(e: Env, st: State, ys: seq<int>, xs: seq<int>, k: nat, k': nat)
    requires Fits(e, st) && InGrid(ys, xs, e.sim.ydim, e.sim.xdim) && k <= k' <= |ys|
    requires Squish(e, st, ys, xs, k).Halt?
    ensures Squish(e, st, ys, xs, k') == Squish(e, st, ys, xs, k)
    decreases k' - k
  {
    if k' > k {
      SquishHaltStays(e, st, ys, xs, k, k' - 1);
    }
  }

  /** What a visit adds to sediment plus bleed: for a contact cell, the
      landed deposits less the limited request; nothing for any other cell
      or for a visit that halts. */
  function VisitGain(e: Env, st: State, y: nat, x: nat): real
    requires Fits(e, st) && y < e.sim.ydim && x < e.sim.xdim
  {
    if st.contact[y][x] == 1.0 then
      match SquishLimit(SquishRequest(e, st, y, x), st.surf[y][x], st.bsmt[y][x], st.zeroElev[y][x])
      case Halt(_) => 0.0
      case Done(g) =>
        var t := e.topo;
        var s1 := Lowered(e, st, y, x, Req(g));
        var s2 := DepositSq(e, s1, t.n1m[y], x, g.n);
        var s3 := DepositSq(e, s2, t.s1m[y], x, g.s);
        var s4 := DepositSq(e, s3, y, t.e1m[x], g.e);
        Landed(e, s1, t.n1m[y], x, g.n) + Landed(e, s2, t.s1m[y], x, g.s) +
        Landed(e, s3, y, t.e1m[x], g.e) + Landed(e, s4, y, t.w1m[x], g.w) - Req(g)
    else 0.0
  }

  /** A visit pushes no negative squish towards any neighbour. */
  predicate VisitOutward(e: Env, st: State, y: nat, x: nat)
    requires Fits(e, st) && y < e.sim.ydim && x < e.sim.xdim
  {
    st.contact[y][x] == 1.0 ==>
      match SquishLimit(SquishRequest(e, st, y, x), st.surf[y][x], st.bsmt[y][x], st.zeroElev[y][x])
      case Halt(_) => true
      case Done(g) => g.n >= 0.0 && g.s >= 0.0 && g.e >= 0.0 && g.w >= 0.0
  }

  /** The gains of the visits the first k steps of squish_sediment make. */
  function SquishGain(e: Env, st: State, ys: seq<int>, xs: seq<int>, k: nat): real
    requires Fits(e, st) && InGrid(ys, xs, e.sim.ydim, e.sim.xdim) && k <= |ys|
    decreases k
  {
    if k == 0 then 0.0
    else match Squish(e, st, ys, xs, k - 1)
      case Halt(_) => SquishGain(e, st, ys, xs, k - 1)
      case Done(s) => SquishGain(e, st, ys, xs, k - 1) + VisitGain(e, s, ys[k - 1], xs[k - 1])
  }

  /** Every visit the first k steps make pushes no negative squish. */
  predicate SquishOutward(e: Env, st: State, ys: seq<int>, xs: seq<int>, k: nat)
    requires Fits(e, st) && InGrid(ys, xs, e.sim.ydim, e.sim.xdim) && k <= |ys|
    decreases k
  {
    k == 0 ||
    match Squish(e, st, ys, xs, k - 1)
    case Halt(_) => SquishOutward(e, st, ys, xs, k - 1)
    case Done(s) => SquishOutward(e, st, ys, xs, k - 1) && VisitOutward(e, s, ys[k - 1], xs[k - 1])
  }

  /** Mass balance of the whole squish phase: sediment plus bleed changes by
      the sum, over the visits made, of what lands less what was requested. */
  lemma {:induction false} SquishMass(e: Env, st: State, ys: seq<int>, xs: seq<int>, k: nat)
    requires Fits(e, st) && InGrid(ys, xs, e.sim.ydim, e.sim.xdim) && k <= |ys|
    requires Squish(e, st, ys, xs, k).Done?
    ensures var r := Squish(e, st, ys, xs, k).value;
      Total(r.surf) + r.sl.totalBleed == Total(st.surf) + st.sl.totalBleed + SquishGain(e, st, ys, xs, k)
  {
    if k > 0 {
      SquishMass(e, st, ys, xs, k - 1);
      var s := Squish(e, st, ys, xs, k - 1).value;
      if s.contact[ys[k - 1]][xs[k - 1]] == 1.0 {
        VisitMass(e, s, ys[k - 1], xs[k - 1]);
      }
    }
  }

  /** A visit that pushes no negative squish creates less than 4 * SNAP_TOL
      of sediment: each of its four deposits overshoots by less than SNAP_TOL. */
  lemma VisitGainBound(e: Env, st: State, y: nat, x: nat)
    requires Fits(e, st) && y < e.sim.ydim && x < e.sim.xdim
    requires VisitOutward(e, st, y, x)
    ensures VisitGain(e, st, y, x) < 4.0 * SNAP_TOL
  {
    if st.contact[y][x] == 1.0 && SquishLimit(SquishRequest(e, st, y, x), st.surf[y][x], st.bsmt[y][x], st.zeroElev[y][x]).Done? {
      VisitMass(e, st, y, x);
    }
  }

  /** A squish whose visits push no negative squish creates at most
      4 * SNAP_TOL of sediment per visit. */
  lemma {:induction false} SquishGainBound(e: Env, st: State, ys: seq<int>, xs: seq<int>, k: nat)
    requires Fits(e, st) && InGrid(ys, xs, e.sim.ydim, e.sim.xdim) && k <= |ys|
    requires SquishOutward(e, st, ys, xs, k)
    ensures SquishGain(e, st, ys, xs, k) <= (k as real) * 4.0 * SNAP_TOL
  {
    if k > 0 {
      SquishGainBound(e, st, ys, xs, k - 1);
      match Squish(e, st, ys, xs, k - 1)
      case Halt(_) =>
      case Done(s) => VisitGainBound(e, s, ys[k - 1], xs[k - 1]);
    }
  }

  /** No surface and no ice base below the basement, and no negative basal
      pressure. */
  ghost predicate Grounded(e: Env, st: State)
    requires Fits(e, st)
  {
    forall y, x :: 0 <= y < e.sim.ydim && 0 <= x < e.sim.xdim ==>
      st.surf[y][x] >= st.bsmt[y][x] && st.ice[y][x] >= st.bsmt[y][x] && st.basalPres[y][x] >= 0.0
  }

  /** A deposit keeps the grid grounded: the target's surface rises or
      snaps up to an ice base that is itself above the basement. */
  lemma DepositGrounded(e: Env, st: State, y: int, x: int, q: real)
    requires Fits(e, st) && Target(y, x, e.sim.ydim, e.sim.xdim) && e.fudge >= 0.0
    requires Grounded(e, st)
    ensures Grounded(e, DepositSq(e, st, y, x, q))
  {
    if q > 0.0 && y != TOXIC_COORD && x != TOXIC_COORD {
      DepositBelowIce(st.surf[y][x], st.ice[y][x], st.contact[y][x], st.basalDef[y][x], q);
    }
  }

  /** The lowered source of a visit keeps the grid grounded. */
  lemma LoweredGrounded(e: Env, st: State, y: nat, x: nat)
    requires Fits(e, st) && y < e.sim.ydim && x < e.sim.xdim && e.fudge >= 0.0
    requires Grounded(e, st)
    requires SquishLimit(SquishRequest(e, st, y, x), st.surf[y][x], st.bsmt[y][x], st.zeroElev[y][x]).Done?
    ensures var g := SquishLimit(SquishRequest(e, st, y, x), st.surf[y][x], st.bsmt[y][x], st.zeroElev[y][x]).value;
      Grounded(e, Lowered(e, st, y, x, Req(g)))
  {
    LoweredSource(e, st, y, x);
  }

  lemma VisitGrounded(e: Env, st: State, y: nat, x: nat)
    requires Fits(e, st) && y < e.sim.ydim && x < e.sim.xdim && e.fudge >= 0.0
    requires Grounded(e, st) && SquishVisit(e, st, y, x).Done?
    ensures Grounded(e, SquishVisit(e, st, y, x).value)
  {
    if st.contact[y][x] == 1.0 {
      var g := SquishLimit(SquishRequest(e, st, y, x), st.surf[y][x], st.bsmt[y][x], st.zeroElev[y][x]).value;
      var t := e.topo;
      var s1 := Lowered(e, st, y, x, Req(g));
      var s2 := DepositSq(e, s1, t.n1m[y], x, g.n);
      var s3 := DepositSq(e, s2, t.s1m[y], x, g.s);
      var s4 := DepositSq(e, s3, y, t.e1m[x], g.e);
      var s5 := DepositSq(e, s4, y, t.w1m[x], g.w);
      assert SquishVisit(e, st, y, x).value == s5.(sl := LogSquish(s5.sl, g));
      LoweredGrounded(e, st, y, x);
      DepositGrounded(e, s1, t.n1m[y], x, g.n);
      DepositGrounded(e, s2, t.s1m[y], x, g.s);
      DepositGrounded(e, s3, y, t.e1m[x], g.e);
      DepositGrounded(e, s4, y, t.w1m[x], g.w);
    }
  }

  /** squish_sediment keeps the grid grounded. */
  lemma {:induction false} SquishGrounded(e: Env, st: State, ys: seq<int>, xs: seq<int>, k: nat)
    requires Fits(e, st) && InGrid(ys, xs, e.sim.ydim, e.sim.xdim) && k <= |ys| && e.fudge >= 0.0
    requires Grounded(e, st) && Squish(e, st, ys, xs, k).Done?
    ensures Grounded(e, Squish(e, st, ys, xs, k).value)
  {
    if k > 0 {
      SquishGrounded(e, st, ys, xs, k - 1);
      VisitGrounded(e, Squish(e, st, ys, xs, k - 1).value, ys[k - 1], xs[k - 1]);
    }
  }

  /** A squish halts only through the ice-ceiling check, with status 10. */
  lemma {:induction false} SquishHaltIsCeiling(e: Env, st: State, ys: seq<int>, xs: seq<int>, k: nat)
    requires Fits(e, st) && InGrid(ys, xs, e.sim.ydim, e.sim.xdim) && k <= |ys|
    requires Squish(e, st, ys, xs, k).Halt?
    ensures Squish(e, st, ys, xs, k).code == 10
  {
    assert k > 0;
    var prev := Squish(e, st, ys, xs, k - 1);
    if prev.Halt? {
      SquishHaltIsCeiling(e, st, ys, xs, k - 1);
    } else {
      var s, y, x := prev.value, ys[k - 1], xs[k - 1];
      SquishHaltCode(SquishRequest(e, s, y, x), s.surf[y][x], s.bsmt[y][x], s.zeroElev[y][x]);
    }
  }

  // ---------------------------------------------------------------------------
  // move_ice.
  // ---------------------------------------------------------------------------

  /** move_ice at one cell, from the ice and iceload of the cell and of its
      western read neighbour. */
  function MoveAt(e: Env, st: State, y: nat, x: nat): MoveOut
    requires Fits(e, st) && y < e.sim.ydim && x < e.sim.xdim
  {
    var w := e.topo.w1[x];
    MoveIceCell(e.sim, e.cellAvg, e.fudge, st.ice[y][w], st.ice[y][x], st.surf[y][x], st.iceload[y][w], st.iceload[y][x])
  }

  /** One output of move_ice for every cell of mg. */
  function OutField(e: Env, mg: seq<seq<MoveOut>>, f: MoveOut -> real): (r: seq<seq<real>>)
    requires OutGrid(mg, e.sim.ydim, e.sim.xdim)
    ensures IsGrid(r, e.sim.ydim, e.sim.xdim)
    ensures forall y, x :: 0 <= y < e.sim.ydim && 0 <= x < e.sim.xdim ==> r[y][x] == f(mg[y][x])
  {
    seq(e.sim.ydim, y requires 0 <= y < e.sim.ydim =>
      seq(e.sim.xdim, x requires 0 <= x < e.sim.xdim => f(mg[y][x])))
  }

  /** move_ice: every cell is computed from the rasters before the phase; the
      new ice and iceload then replace the old. */
  function MoveIce(e: Env, st: State): (r: State)
    requires Fits(e, st)
    ensures Fits(e, r)
  {
    var mg := MoveOuts(e, st);
    var ni := OutField(e, mg, (m: MoveOut) => m.nIce);
    var nl := OutField(e, mg, (m: MoveOut) => m.nIceload);
    st.(zeroElev := OutField(e, mg, (m: MoveOut) => m.zeroElev), basalDef := OutField(e, mg, (m: MoveOut) => m.basalDef),
        basalPres := OutField(e, mg, (m: MoveOut) => m.pc.pres), contact := OutField(e, mg, (m: MoveOut) => m.pc.contact),
        nIce := ni, nIceload := nl, ice := ni, iceload := nl)
  }

  /** v lies between a and b, in either order. */
  predicate Between(v: real, a: real, b: real)
  {
    (a <= b ==> a <= v <= b) && (b <= a ==> b <= v <= a)
  }

  /** The state of cell (y, x) after move_ice from st to r: it is in
      contact or a cavity; a cavity is exactly a bed below the pressure-free
      height, and its ice hangs at that height with no pressure; a contact
      cell's ice rests on the bed; the deformation is the step from the
      shifted ice to the new ice base; the pressure is not negative; the
      moved iceload lies between the cell's and its western neighbour's. */
  ghost predicate Moved(e: Env, st: State, r: State, y: nat, x: nat)
    requires Fits(e, st) && Fits(e, r) && y < e.sim.ydim && x < e.sim.xdim
  {
    var w := e.topo.w1[x];
    && (r.contact[y][x] == 0.0 || r.contact[y][x] == 1.0)
    && (r.contact[y][x] == 0.0 <==>
          st.surf[y][x] < ZeroElev(e.sim, e.cellAvg, st.ice[y][w], st.ice[y][x]) + (e.fudge * e.sim.lenTimestep) / e.sim.viscosity)
    && (r.contact[y][x] == 0.0 ==> r.ice[y][x] == r.zeroElev[y][x] && r.basalPres[y][x] == 0.0)
    && (r.contact[y][x] == 1.0 ==> r.ice[y][x] == st.surf[y][x])
    && r.basalDef[y][x] == r.ice[y][x] - IceTemp(e.sim, st.ice[y][w], st.ice[y][x])
    && r.basalPres[y][x] >= 0.0
    && Between(r.iceload[y][x], st.iceload[y][w], st.iceload[y][x])
  }

  lemma MovedCell(e: Env, st: State, y: nat, x: nat)
    requires Fits(e, st) && e.fudge >= 0.0 && y < e.sim.ydim && x < e.sim.xdim
    requires StableAdvection(e.sim) && e.sim.iceAdvection * e.sim.lenTimestep >= 0.0
    ensures Moved(e, st, MoveIce(e, st), y, x)
  {
    var w := e.topo.w1[x];
    MoveIceSettles(e.sim, e.cellAvg, e.fudge, st.ice[y][w], st.ice[y][x], st.surf[y][x], st.iceload[y][w], st.iceload[y][x]);
    MoveIceloadBlend(e.sim, e.cellAvg, e.fudge, st.ice[y][w], st.ice[y][x], st.surf[y][x], st.iceload[y][w], st.iceload[y][x]);
  }

  /** move_ice settles every cell as Moved says and leaves the sediment,
      basement, erodibility, pending changes and log alone. */
  lemma MoveIceState(e: Env, st: State)
    requires Fits(e, st) && e.fudge >= 0.0
    requires StableAdvection(e.sim) && e.sim.iceAdvection * e.sim.lenTimestep >= 0.0
    ensures var r := MoveIce(e, st);
      && r.surf == st.surf && r.bsmt == st.bsmt && r.sl == st.sl && r.erodibility == st.erodibility
      && r.dsurf == st.dsurf && r.diceload == st.diceload
      && forall y, x :: 0 <= y < e.sim.ydim && 0 <= x < e.sim.xdim ==> Moved(e, st, r, y, x)
  {
    forall y: int, x: int | 0 <= y < e.sim.ydim && 0 <= x < e.sim.xdim
      ensures Moved(e, st, MoveIce(e, st), y, x)
    {
      MovedCell(e, st, y, x);
    }
  }

  /** The six writes of move_ice's first sweep at cell (y, x). */
  function MoveStore(e: Env, st: State, y: nat, x: nat, m: MoveOut): (r: State)
    requires Fits(e, st) && y < e.sim.ydim && x < e.sim.xdim
    ensures Fits(e, r)
  {
    st.(zeroElev := Put(st.zeroElev, y, x, m.zeroElev), basalDef := Put(st.basalDef, y, x, m.basalDef),
        basalPres := Put(st.basalPres, y, x, m.pc.pres), contact := Put(st.contact, y, x, m.pc.contact),
        nIce := Put(st.nIce, y, x, m.nIce), nIceload := Put(st.nIceload, y, x, m.nIceload))
  }

  /** What move_ice computes at every cell from the rasters before the phase. */
  function MoveOuts(e: Env, st: State): (r: seq<seq<MoveOut>>)
    requires Fits(e, st)
    ensures OutGrid(r, e.sim.ydim, e.sim.xdim)
    ensures forall y, x :: 0 <= y < e.sim.ydim && 0 <= x < e.sim.xdim ==> r[y][x] == MoveAt(e, st, y, x)
  {
    seq(e.sim.ydim, y requires 0 <= y < e.sim.ydim =>
      seq(e.sim.xdim, x requires 0 <= x < e.sim.xdim => MoveAt(e, st, y, x)))
  }

  ghost predicate OutGrid(mg: seq<seq<MoveOut>>, ydim: nat, xdim: nat)
  {
    |mg| == ydim && forall y :: 0 <= y < ydim ==> |mg[y]| == xdim
  }

  /** Cell (y, x) of mg holds what move_ice computes there from st. */
  ghost predicate Planned(e: Env, st: State, mg: seq<seq<MoveOut>>, y: nat, x: nat)
    requires Fits(e, st) && OutGrid(mg, e.sim.ydim, e.sim.xdim) && y < e.sim.ydim && x < e.sim.xdim
  {
    mg[y][x] == MoveAt(e, st, y, x)
  }

  /** move_ice's first sweep from st, up to but not including cell (y, x),
      cell by cell in row-major order: each cell stores its entry of mg.
      Only the six written rasters change. */
  function MoveSweep(e: Env, st: State, mg: seq<seq<MoveOut>>, y: nat, x: nat): (r: State)
    requires Fits(e, st) && OutGrid(mg, e.sim.ydim, e.sim.xdim)
    requires y <= e.sim.ydim && x <= e.sim.xdim && (y < e.sim.ydim || x == 0)
    ensures Fits(e, r)
    ensures r == st.(zeroElev := r.zeroElev, basalDef := r.basalDef, basalPres := r.basalPres,
                     contact := r.contact, nIce := r.nIce, nIceload := r.nIceload)
    decreases y, x
  {
    if x > 0 then MoveStore(e, MoveSweep(e, st, mg, y, x - 1), y, x - 1, mg[y][x - 1])
    else if y > 0 then MoveSweep(e, st, mg, y - 1, e.sim.xdim)
    else st
  }

  /** The same sweep in closed form: the cells before (y, x) hold their
      new pressure-free height, deformation, pressure, contact, new ice and
      new iceload, the others their values before the phase. */
  function MoveMix(e: Env, st: State, mg: seq<seq<MoveOut>>, y: int, x: int): (r: State)
    requires Fits(e, st) && OutGrid(mg, e.sim.ydim, e.sim.xdim)
    ensures Fits(e, r)
  {
    var ydim, xdim := e.sim.ydim, e.sim.xdim;
    st.(zeroElev := Mix(st.zeroElev, OutField(e, mg, (m: MoveOut) => m.zeroElev), ydim, xdim, y, x),
        basalDef := Mix(st.basalDef, OutField(e, mg, (m: MoveOut) => m.basalDef), ydim, xdim, y, x),
        basalPres := Mix(st.basalPres, OutField(e, mg, (m: MoveOut) => m.pc.pres), ydim, xdim, y, x),
        contact := Mix(st.contact, OutField(e, mg, (m: MoveOut) => m.pc.contact), ydim, xdim, y, x),
        nIce := Mix(st.nIce, OutField(e, mg, (m: MoveOut) => m.nIce), ydim, xdim, y, x),
        nIceload := Mix(st.nIceload, OutField(e, mg, (m: MoveOut) => m.nIceload), ydim, xdim, y, x))
  }

  /** A state and a grid of move_ice outputs of the same shape. */
  ghost predicate MoveFits(e: Env, st: State, mg: seq<seq<MoveOut>>)
  {
    Fits(e, st) && OutGrid(mg, e.sim.ydim, e.sim.xdim)
  }

  lemma MoveMixStart(e: Env, st: State, mg: seq<seq<MoveOut>>)
    requires Fits(e, st) && OutGrid(mg, e.sim.ydim, e.sim.xdim)
    ensures MoveSweep(e, st, mg, 0, 0) == MoveMix(e, st, mg, 0, 0)
  {
    var ydim, xdim := e.sim.ydim, e.sim.xdim;
    MixStart(st.zeroElev, OutField(e, mg, (m: MoveOut) => m.zeroElev), ydim, xdim);
    MixStart(st.basalDef, OutField(e, mg, (m: MoveOut) => m.basalDef), ydim, xdim);
    MixStart(st.basalPres, OutField(e, mg, (m: MoveOut) => m.pc.pres), ydim, xdim);
    MixStart(st.contact, OutField(e, mg, (m: MoveOut) => m.pc.contact), ydim, xdim);
    MixStart(st.nIce, OutField(e, mg, (m: MoveOut) => m.nIce), ydim, xdim);
    MixStart(st.nIceload, OutField(e, mg, (m: MoveOut) => m.nIceload), ydim, xdim);
  }

  lemma MoveMixStep(e: Env, st: State, mg: seq<seq<MoveOut>>, y: nat, x: nat)
    requires MoveFits(e, st, mg) && y < e.sim.ydim && x < e.sim.xdim
    requires MoveSweep(e, st, mg, y, x) == MoveMix(e, st, mg, y, x)
    ensures MoveSweep(e, st, mg, y, x + 1) == MoveMix(e, st, mg, y, x + 1)
  {
    var ydim, xdim := e.sim.ydim, e.sim.xdim;
    MixStep(st.zeroElev, OutField(e, mg, (m: MoveOut) => m.zeroElev), ydim, xdim, y, x);
    MixStep(st.basalDef, OutField(e, mg, (m: MoveOut) => m.basalDef), ydim, xdim, y, x);
    MixStep(st.basalPres, OutField(e, mg, (m: MoveOut) => m.pc.pres), ydim, xdim, y, x);
    MixStep(st.contact, OutField(e, mg, (m: MoveOut) => m.pc.contact), ydim, xdim, y, x);
    MixStep(st.nIce, OutField(e, mg, (m: MoveOut) => m.nIce), ydim, xdim, y, x);
    MixStep(st.nIceload, OutField(e, mg, (m: MoveOut) => m.nIceload), ydim, xdim, y, x);
  }

  lemma MoveMixRow(e: Env, st: State, mg: seq<seq<MoveOut>>, y: nat)
    requires Fits(e, st) && OutGrid(mg, e.sim.ydim, e.sim.xdim) && y < e.sim.ydim
    requires MoveSweep(e, st, mg, y, e.sim.xdim) == MoveMix(e, st, mg, y, e.sim.xdim)
    ensures MoveSweep(e, st, mg, y + 1, 0) == MoveMix(e, st, mg, y + 1, 0)
  {
    var ydim, xdim := e.sim.ydim, e.sim.xdim;
    MixRow(st.zeroElev, OutField(e, mg, (m: MoveOut) => m.zeroElev), ydim, xdim, y);
    MixRow(st.basalDef, OutField(e, mg, (m: MoveOut) => m.basalDef), ydim, xdim, y);
    MixRow(st.basalPres, OutField(e, mg, (m: MoveOut) => m.pc.pres), ydim, xdim, y);
    MixRow(st.contact, OutField(e, mg, (m: MoveOut) => m.pc.contact), ydim, xdim, y);
    MixRow(st.nIce, OutField(e, mg, (m: MoveOut) => m.nIce), ydim, xdim, y);
    MixRow(st.nIceload, OutField(e, mg, (m: MoveOut) => m.nIceload), ydim, xdim, y);
  }

  /** Within row y, the sweep keeps to the closed form. */
  lemma {:induction false} MoveRowIsMix(e: Env, st: State, mg: seq<seq<MoveOut>>, y: nat, x: nat)
    requires MoveFits(e, st, mg) && y < e.sim.ydim && x <= e.sim.xdim
    requires MoveSweep(e, st, mg, y, 0) == MoveMix(e, st, mg, y, 0)
    ensures MoveSweep(e, st, mg, y, x) == MoveMix(e, st, mg, y, x)
    decreases x
  {
    if x > 0 {
      MoveRowIsMix(e, st, mg, y, x - 1);
      MoveMixStep(e, st, mg, y, x - 1);
    }
  }

  /** The cell-by-cell sweep reaches the closed form at the start of every
      row. */
  lemma {:induction false} MoveSweepIsMix(e: Env, st: State, mg: seq<seq<MoveOut>>, y: nat)
    requires Fits(e, st) && OutGrid(mg, e.sim.ydim, e.sim.xdim) && y <= e.sim.ydim
    ensures MoveSweep(e, st, mg, y, 0) == MoveMix(e, st, mg, y, 0)
    decreases y
  {
    if y > 0 {
      MoveSweepIsMix(e, st, mg, y - 1);
      MoveRowIsMix(e, st, mg, y - 1, e.sim.xdim);
      MoveMixRow(e, st, mg, y - 1);
    } else {
      MoveMixStart(e, st, mg);
    }
  }

  /** move_ice's second sweep from st, up to but not including cell (y, x):
      each cell copies st's new ice and iceload over the old. */
  function CopySweep(e: Env, st: State, y: nat, x: nat): (r: State)
    requires Fits(e, st) && y <= e.sim.ydim && x <= e.sim.xdim && (y < e.sim.ydim || x == 0)
    ensures Fits(e, r)
    ensures r == st.(ice := r.ice, iceload := r.iceload)
    decreases y, x
  {
    if x > 0 then
      var c := CopySweep(e, st, y, x - 1);
      c.(ice := Put(c.ice, y, x - 1, st.nIce[y][x - 1]), iceload := Put(c.iceload, y, x - 1, st.nIceload[y][x - 1]))
    else if y > 0 then CopySweep(e, st, y - 1, e.sim.xdim)
    else st
  }

  /** The same sweep in closed form. */
  function CopyMix(e: Env, st: State, y: int, x: int): (r: State)
    requires Fits(e, st)
    ensures Fits(e, r)
  {
    var ydim, xdim := e.sim.ydim, e.sim.xdim;
    st.(ice := Mix(st.ice, st.nIce, ydim, xdim, y, x), iceload := Mix(st.iceload, st.nIceload, ydim, xdim, y, x))
  }

  /** After the first sweep, copying every cell gives MoveIce. */
  lemma MoveMixDone(e: Env, st: State)
    requires Fits(e, st)
    ensures CopyMix(e, MoveMix(e, st, MoveOuts(e, st), e.sim.ydim, 0), e.sim.ydim, 0) == MoveIce(e, st)
  {
    var ydim, xdim := e.sim.ydim, e.sim.xdim;
    var mg := MoveOuts(e, st);
    var s1 := MoveMix(e, st, mg, ydim, 0);
    MixDone(st.zeroElev, OutField(e, mg, (m: MoveOut) => m.zeroElev), ydim, xdim);
    MixDone(st.basalDef, OutField(e, mg, (m: MoveOut) => m.basalDef), ydim, xdim);
    MixDone(st.basalPres, OutField(e, mg, (m: MoveOut) => m.pc.pres), ydim, xdim);
    MixDone(st.contact, OutField(e, mg, (m: MoveOut) => m.pc.contact), ydim, xdim);
    MixDone(st.nIce, OutField(e, mg, (m: MoveOut) => m.nIce), ydim, xdim);
    MixDone(st.nIceload, OutField(e, mg, (m: MoveOut) => m.nIceload), ydim, xdim);
    MixDone(s1.ice, s1.nIce, ydim, xdim);
    MixDone(s1.iceload, s1.nIceload, ydim, xdim);
  }

  /** One more cell: the sweep and the closed form stay equal. */
  lemma CopyMixStep(e: Env, st: State, y: nat, x: nat)
    requires Fits(e, st) && y < e.sim.ydim && x < e.sim.xdim
    requires CopySweep(e, st, y, x) == CopyMix(e, st, y, x)
    ensures CopySweep(e, st, y, x + 1) == CopyMix(e, st, y, x + 1)
  {
    var ydim, xdim := e.sim.ydim, e.sim.xdim;
    MixStep(st.ice, st.nIce, ydim, xdim, y, x);
    MixStep(st.iceload, st.nIceload, ydim, xdim, y, x);
  }

  /** The end of a row: the sweep and the closed form stay equal. */
  lemma CopyMixRow(e: Env, st: State, y: nat)
    requires Fits(e, st) && y < e.sim.ydim
    requires CopySweep(e, st, y, e.sim.xdim) == CopyMix(e, st, y, e.sim.xdim)
    ensures CopySweep(e, st, y + 1, 0) == CopyMix(e, st, y + 1, 0)
  {
    var ydim, xdim := e.sim.ydim, e.sim.xdim;
    MixRow(st.ice, st.nIce, ydim, xdim, y);
    MixRow(st.iceload, st.nIceload, ydim, xdim, y);
  }

  /** Before the first cell nothing has changed. */
  lemma CopyMixStart(e: Env, st: State)
    requires Fits(e, st)
    ensures CopySweep(e, st, 0, 0) == CopyMix(e, st, 0, 0)
  {
    MixStart(st.ice, st.nIce, e.sim.ydim, e.sim.xdim);
    MixStart(st.iceload, st.nIceload, e.sim.ydim, e.sim.xdim);
  }

  lemma {:induction false} CopySweepIsMix(e: Env, st: State, y: nat, x: nat)
    requires Fits(e, st) && y <= e.sim.ydim && x <= e.sim.xdim && (y < e.sim.ydim || x == 0)
    ensures CopySweep(e, st, y, x) == CopyMix(e, st, y, x)
    decreases y, x
  {
    if x > 0 {
      CopySweepIsMix(e, st, y, x - 1);
      CopyMixStep(e, st, y, x - 1);
    } else if y > 0 {
      CopySweepIsMix(e, st, y - 1, e.sim.xdim);
      CopyMixRow(e, st, y - 1);
    } else {
      CopyMixStart(e, st);
    }
  }

  /** move_ice as the source runs it, a computing sweep and then a copying
      sweep, gives MoveIce. */
  lemma MoveIceBySweeps(e: Env, st: State)
    requires Fits(e, st)
    ensures CopySweep(e, MoveSweep(e, st, MoveOuts(e, st), e.sim.ydim, 0), e.sim.ydim, 0) == MoveIce(e, st)
  {
    MoveSweepIsMix(e, st, MoveOuts(e, st), e.sim.ydim);
    CopySweepIsMix(e, MoveSweep(e, st, MoveOuts(e, st), e.sim.ydim, 0), e.sim.ydim, 0);
    MoveMixDone(e, st);
  }

  // ---------------------------------------------------------------------------
  // advect_entrainment and apply_dsurf.
  // ---------------------------------------------------------------------------

  /** The advection and entrainment of one cell after the basement check.
      draws[y][x] stands for the uniform draw the cell's advection uses. */
  function AdvAt(e: Env, st: State, draws: seq<seq<real>>, y: nat, x: nat): AdvFlux
    requires Fits(e, st) && IsGrid(draws, e.sim.ydim, e.sim.xdim) && y < e.sim.ydim && x < e.sim.xdim
  {
    AdvLimit(Advection(st.basalPres[y][x], st.basalPres[y][e.topo.e1[x]], e.sim, draws[y][x]),
             Entrainment(st.contact[y][x], st.basalPres[y][x], st.iceload[y][x], e.sim),
             st.surf[y][x], st.bsmt[y][x])
  }

  /** The fluxes of every cell; advect_entrainment reads no raster it
      writes, so they are fixed by the state at the start of the phase. */
  function AdvFluxes(e: Env, st: State, draws: seq<seq<real>>): (r: seq<seq<AdvFlux>>)
    requires Fits(e, st) && IsGrid(draws, e.sim.ydim, e.sim.xdim)
    ensures FluxGrid(r, e.sim.ydim, e.sim.xdim)
    ensures forall y, x :: 0 <= y < e.sim.ydim && 0 <= x < e.sim.xdim ==> r[y][x] == AdvAt(e, st, draws, y, x)
  {
    seq(e.sim.ydim, y requires 0 <= y < e.sim.ydim =>
      seq(e.sim.xdim, x requires 0 <= x < e.sim.xdim => AdvAt(e, st, draws, y, x)))
  }

  ghost predicate FluxGrid(fl: seq<seq<AdvFlux>>, ydim: nat, xdim: nat)
  {
    |fl| == ydim && forall y :: 0 <= y < ydim ==> |fl[y]| == xdim
  }

  /** The log after one cell's advection and entrainment. */
  function LogAdvection(l: Ledger, f: AdvFlux): Ledger
  {
    if f.qEn > 0.0 then l.(qAd := l.qAd + f.qAd, qEntrain := l.qEntrain + f.qEn)
    else l.(qAd := l.qAd + f.qAd, qDistrain := l.qDistrain + (-1.0 * f.qEn))
  }

  /** What advect_entrainment writes: the pending changes and the log. */
  datatype Pending = Pending(dsurf: seq<seq<real>>, diceload: seq<seq<real>>, sl: Ledger)

  ghost predicate PendingOk(e: Env, p: Pending)
  {
    && IsGrid(p.dsurf, e.sim.ydim, e.sim.xdim) && IsGrid(p.diceload, e.sim.ydim, e.sim.xdim)
    && |e.topo.e1m| == e.sim.xdim && InRangeOrToxic(e.sim.xdim, e.topo.e1m, TOXIC_COORD)
  }

  /** One cell of advect_entrainment with fluxes f: the cell loses both from
      dsurf, the iceload gains the entrainment, and the advection goes to the
      eastern move neighbour or bleeds out of the grid. */
  function AdvStep(e: Env, p: Pending, f: AdvFlux, y: nat, x: nat): (r: Pending)
    requires PendingOk(e, p) && y < e.sim.ydim && x < e.sim.xdim
    ensures PendingOk(e, r)
  {
    var d1 := Put(p.dsurf, y, x, p.dsurf[y][x] - f.qAd - f.qEn);
    var di := Put(p.diceload, y, x, p.diceload[y][x] + f.qEn);
    var ex := e.topo.e1m[x];
    if ex != TOXIC_COORD then Pending(Put(d1, y, ex, d1[y][ex] + f.qAd), di, LogAdvection(p.sl, f))
    else Pending(d1, di, LogAdvection(p.sl.(totalBleed := p.sl.totalBleed + f.qAd), f))
  }

  /** The first x cells of row y. */
  function AdvRow(e: Env, p: Pending, fl: seq<seq<AdvFlux>>, y: nat, x: nat): (r: Pending)
    requires PendingOk(e, p) && FluxGrid(fl, e.sim.ydim, e.sim.xdim) && y < e.sim.ydim && x <= e.sim.xdim
    ensures PendingOk(e, r)
    decreases x
  {
    if x == 0 then p else AdvStep(e, AdvRow(e, p, fl, y, x - 1), fl[y][x - 1], y, x - 1)
  }

  /** The first y rows. */
  function AdvRows(e: Env, p: Pending, fl: seq<seq<AdvFlux>>, y: nat): (r: Pending)
    requires PendingOk(e, p) && FluxGrid(fl, e.sim.ydim, e.sim.xdim) && y <= e.sim.ydim
    ensures PendingOk(e, r)
    decreases y
  {
    if y == 0 then p else AdvRow(e, AdvRows(e, p, fl, y - 1), fl, y - 1, e.sim.xdim)
  }

  /** advect_entrainment: dsurf and diceload are reset, then every cell is
      visited in row-major order. */
  function Advect(e: Env, st: State, draws: seq<seq<real>>): (r: State)
    requires Fits(e, st) && IsGrid(draws, e.sim.ydim, e.sim.xdim)
    ensures Fits(e, r)
  {
    var z := ConstGrid(e.sim.ydim, e.sim.xdim, 0.0);
    var p := AdvRows(e, Pending(z, z, st.sl), AdvFluxes(e, st, draws), e.sim.ydim);
    st.(dsurf := p.dsurf, diceload := p.diceload, sl := p.sl)
  }

  /** Sediment on the bed yields a non-negative advection and a removal that
      does not dig below the basement. */
  lemma AdvAtBounds(e: Env, st: State, draws: seq<seq<real>>, y: nat, x: nat)
    requires Fits(e, st) && IsGrid(draws, e.sim.ydim, e.sim.xdim) && y < e.sim.ydim && x < e.sim.xdim
    requires st.surf[y][x] >= st.bsmt[y][x]
    ensures AdvAt(e, st, draws, y, x).qAd >= 0.0
    ensures st.surf[y][x] - (AdvAt(e, st, draws, y, x).qAd + AdvAt(e, st, draws, y, x).qEn) >= st.bsmt[y][x]
  {
    var qAd := Advection(st.basalPres[y][x], st.basalPres[y][e.topo.e1[x]], e.sim, draws[y][x]);
    var qEn := Entrainment(st.contact[y][x], st.basalPres[y][x], st.iceload[y][x], e.sim);
    AdvLimitFloor(qAd, qEn, st.surf[y][x], st.bsmt[y][x]);
    var req := qAd + qEn;
    if (st.surf[y][x] - req) < st.bsmt[y][x] && req != 0.0 && qEn > 0.0 {
      var k := (st.surf[y][x] - st.bsmt[y][x]) / req;
      assert k >= 0.0;
      assert k * qAd >= 0.0;
    }
  }

  /** The sediment advect_entrainment moves around: pending surface and
      iceload changes plus the bleed. */
  function AdvMass(p: Pending): real
  {
    Total(p.dsurf) + Total(p.diceload) + p.sl.totalBleed
  }

  /** One cell of advection keeps the sediment in dsurf, diceload and the
      bleed: their sum does not change. */
  lemma AdvStepConserves(e: Env, p: Pending, f: AdvFlux, y: nat, x: nat)
    requires PendingOk(e, p) && y < e.sim.ydim && x < e.sim.xdim
    ensures AdvMass(AdvStep(e, p, f, y, x)) == AdvMass(p)
    ensures AdvStep(e, p, f, y, x).sl.abrasion == p.sl.abrasion
  {
    var d1 := Put(p.dsurf, y, x, p.dsurf[y][x] - f.qAd - f.qEn);
    TotalPut(p.dsurf, y, x, p.dsurf[y][x] - f.qAd - f.qEn);
    TotalPut(p.diceload, y, x, p.diceload[y][x] + f.qEn);
    var ex := e.topo.e1m[x];
    if ex != TOXIC_COORD {
      TotalPut(d1, y, ex, d1[y][ex] + f.qAd);
    }
  }

  lemma {:induction false} AdvRowConserves(e: Env, p: Pending, fl: seq<seq<AdvFlux>>, y: nat, x: nat)
    requires PendingOk(e, p) && FluxGrid(fl, e.sim.ydim, e.sim.xdim) && y < e.sim.ydim && x <= e.sim.xdim
    ensures AdvMass(AdvRow(e, p, fl, y, x)) == AdvMass(p)
    decreases x
  {
    if x > 0 {
      var q := AdvRow(e, p, fl, y, x - 1);
      calc {
        AdvMass(AdvRow(e, p, fl, y, x));
        AdvMass(AdvStep(e, q, fl[y][x - 1], y, x - 1));
        { AdvStepConserves(e, q, fl[y][x - 1], y, x - 1); }
        AdvMass(q);
        { AdvRowConserves(e, p, fl, y, x - 1); }
        AdvMass(p);
      }
    }
  }

  /** Advection logs no abrasion. */
  lemma {:induction false} AdvRowKeepsAbrasion(e: Env, p: Pending, fl: seq<seq<AdvFlux>>, y: nat, x: nat)
    requires PendingOk(e, p) && FluxGrid(fl, e.sim.ydim, e.sim.xdim) && y < e.sim.ydim && x <= e.sim.xdim
    ensures AdvRow(e, p, fl, y, x).sl.abrasion == p.sl.abrasion
    decreases x
  {
    if x > 0 {
      AdvRowKeepsAbrasion(e, p, fl, y, x - 1);
      AdvStepConserves(e, AdvRow(e, p, fl, y, x - 1), fl[y][x - 1], y, x - 1);
    }
  }

  lemma {:induction false} AdvRowsConserve(e: Env, p: Pending, fl: seq<seq<AdvFlux>>, y: nat)
    requires PendingOk(e, p) && FluxGrid(fl, e.sim.ydim, e.sim.xdim) && y <= e.sim.ydim
    ensures AdvMass(AdvRows(e, p, fl, y)) == AdvMass(p)
    ensures AdvRows(e, p, fl, y).sl.abrasion == p.sl.abrasion
    decreases y
  {
    if y > 0 {
      AdvRowsConserve(e, p, fl, y - 1);
      AdvRowConserves(e, AdvRows(e, p, fl, y - 1), fl, y - 1, e.sim.xdim);
      AdvRowKeepsAbrasion(e, AdvRows(e, p, fl, y - 1), fl, y - 1, e.sim.xdim);
    }
  }

  /** Partway through the sweep, a visited cell's pending change is no
      lower than minus its own removal, and an unvisited one is not
      negative; a visited cell's pending iceload change is its own
      entrainment, an unvisited one's is zero. */
  ghost predicate AdvFloor(e: Env, p: Pending, fl: seq<seq<AdvFlux>>, y: int, x: int)
    requires PendingOk(e, p) && FluxGrid(fl, e.sim.ydim, e.sim.xdim)
  {
    forall i, j :: 0 <= i < e.sim.ydim && 0 <= j < e.sim.xdim ==>
      && p.dsurf[i][j] >= (if Before(i, j, y, x) then -(fl[i][j].qAd + fl[i][j].qEn) else 0.0)
      && p.diceload[i][j] == if Before(i, j, y, x) then fl[i][j].qEn else 0.0
  }

  ghost predicate InflowsNonNegative(fl: seq<seq<AdvFlux>>, ydim: nat, xdim: nat)
    requires FluxGrid(fl, ydim, xdim)
  {
    forall i, j :: 0 <= i < ydim && 0 <= j < xdim ==> fl[i][j].qAd >= 0.0
  }

  lemma AdvStepFloor(e: Env, p: Pending, fl: seq<seq<AdvFlux>>, y: nat, x: nat)
    requires PendingOk(e, p) && FluxGrid(fl, e.sim.ydim, e.sim.xdim) && y < e.sim.ydim && x < e.sim.xdim
    requires InflowsNonNegative(fl, e.sim.ydim, e.sim.xdim) && AdvFloor(e, p, fl, y, x)
    ensures AdvFloor(e, AdvStep(e, p, fl[y][x], y, x), fl, y, x + 1)
  {
  }

  lemma {:induction false} AdvRowFloor(e: Env, p: Pending, fl: seq<seq<AdvFlux>>, y: nat, x: nat)
    requires PendingOk(e, p) && FluxGrid(fl, e.sim.ydim, e.sim.xdim) && y < e.sim.ydim && x <= e.sim.xdim
    requires InflowsNonNegative(fl, e.sim.ydim, e.sim.xdim) && AdvFloor(e, p, fl, y, 0)
    ensures AdvFloor(e, AdvRow(e, p, fl, y, x), fl, y, x)
    decreases x
  {
    if x > 0 {
      AdvRowFloor(e, p, fl, y, x - 1);
      AdvStepFloor(e, AdvRow(e, p, fl, y, x - 1), fl, y, x - 1);
    }
  }

  lemma {:induction false} AdvRowsFloor(e: Env, p: Pending, fl: seq<seq<AdvFlux>>, y: nat)
    requires PendingOk(e, p) && FluxGrid(fl, e.sim.ydim, e.sim.xdim) && y <= e.sim.ydim
    requires InflowsNonNegative(fl, e.sim.ydim, e.sim.xdim) && AdvFloor(e, p, fl, 0, 0)
    ensures AdvFloor(e, AdvRows(e, p, fl, y), fl, y, 0)
    decreases y
  {
    if y > 0 {
      var q := AdvRows(e, p, fl, y - 1);
      AdvRowsFloor(e, p, fl, y - 1);
      AdvRowFloor(e, q, fl, y - 1, e.sim.xdim);
      assert AdvFloor(e, AdvRow(e, q, fl, y - 1, e.sim.xdim), fl, y, 0);
    }
  }

  /** Cell (y, x) of fl holds the fluxes advect_entrainment computes there
      from st. */
  ghost predicate FluxPlanned(e: Env, st: State, draws: seq<seq<real>>, fl: seq<seq<AdvFlux>>, y: nat, x: nat)
    requires Fits(e, st) && IsGrid(draws, e.sim.ydim, e.sim.xdim) && FluxGrid(fl, e.sim.ydim, e.sim.xdim)
    requires y < e.sim.ydim && x < e.sim.xdim
  {
    fl[y][x] == AdvAt(e, st, draws, y, x)
  }

  /** advect_entrainment's sweep from p, up to but not including cell
      (y, x), in row-major order. */
  function AdvTo(e: Env, p: Pending, fl: seq<seq<AdvFlux>>, y: nat, x: nat): (r: Pending)
    requires PendingOk(e, p) && FluxGrid(fl, e.sim.ydim, e.sim.xdim)
    requires y <= e.sim.ydim && x <= e.sim.xdim && (y < e.sim.ydim || x == 0)
    ensures PendingOk(e, r)
  {
    if y == e.sim.ydim then AdvRows(e, p, fl, y) else AdvRow(e, AdvRows(e, p, fl, y), fl, y, x)
  }

  /** The state partway through advect_entrainment from st with fluxes fl:
      dsurf and diceload were reset and the cells before (y, x) are done;
      no other raster changes. */
  function Advected(e: Env, st: State, fl: seq<seq<AdvFlux>>, y: nat, x: nat): (r: State)
    requires Fits(e, st) && FluxGrid(fl, e.sim.ydim, e.sim.xdim)
    requires y <= e.sim.ydim && x <= e.sim.xdim && (y < e.sim.ydim || x == 0)
    ensures Fits(e, r)
  {
    var z := ConstGrid(e.sim.ydim, e.sim.xdim, 0.0);
    var q := AdvTo(e, Pending(z, z, st.sl), fl, y, x);
    st.(dsurf := q.dsurf, diceload := q.diceload, sl := q.sl)
  }

  /** One cell of advect_entrainment applied to a state. */
  function AdvPut(e: Env, st: State, y: nat, x: nat, f: AdvFlux): (r: State)
    requires Fits(e, st) && y < e.sim.ydim && x < e.sim.xdim
    ensures Fits(e, r)
  {
    var q := AdvStep(e, Pending(st.dsurf, st.diceload, st.sl), f, y, x);
    st.(dsurf := q.dsurf, diceload := q.diceload, sl := q.sl)
  }

  /** The first half of a cell of advect_entrainment: the cell's own
      removal and its iceload gain. */
  function AdvTake(e: Env, st: State, y: nat, x: nat, f: AdvFlux): (r: State)
    requires Fits(e, st) && y < e.sim.ydim && x < e.sim.xdim
    ensures Fits(e, r)
  {
    st.(dsurf := Put(st.dsurf, y, x, st.dsurf[y][x] - f.qAd - f.qEn),
        diceload := Put(st.diceload, y, x, st.diceload[y][x] + f.qEn))
  }

  /** The second half: the advection reaches the east move neighbour or
      bleeds out, and the log records both fluxes. */
  function AdvGive(e: Env, st: State, y: nat, x: nat, f: AdvFlux): (r: State)
    requires Fits(e, st) && y < e.sim.ydim && x < e.sim.xdim
    ensures Fits(e, r)
  {
    var ex := e.topo.e1m[x];
    if ex != TOXIC_COORD then st.(dsurf := Put(st.dsurf, y, ex, st.dsurf[y][ex] + f.qAd), sl := LogAdvection(st.sl, f))
    else st.(sl := LogAdvection(st.sl.(totalBleed := st.sl.totalBleed + f.qAd), f))
  }

  lemma AdvPutHalves(e: Env, st: State, y: nat, x: nat, f: AdvFlux)
    requires Fits(e, st) && y < e.sim.ydim && x < e.sim.xdim
    ensures AdvPut(e, st, y, x, f) == AdvGive(e, AdvTake(e, st, y, x, f), y, x, f)
  {
  }

  /** Before the first cell only the reset has happened. */
  lemma AdvectedStart(e: Env, st: State, fl: seq<seq<AdvFlux>>)
    requires Fits(e, st) && FluxGrid(fl, e.sim.ydim, e.sim.xdim)
    ensures var z := ConstGrid(e.sim.ydim, e.sim.xdim, 0.0);
      Advected(e, st, fl, 0, 0) == st.(dsurf := z, diceload := z)
  {
  }

  /** Each cell adds its own step to the sweep. */
  lemma AdvectedStep(e: Env, st: State, fl: seq<seq<AdvFlux>>, y: nat, x: nat)
    requires Fits(e, st) && FluxGrid(fl, e.sim.ydim, e.sim.xdim) && y < e.sim.ydim && x < e.sim.xdim
    ensures Advected(e, st, fl, y, x + 1) == AdvPut(e, Advected(e, st, fl, y, x), y, x, fl[y][x])
  {
    var z := ConstGrid(e.sim.ydim, e.sim.xdim, 0.0);
    var p := Pending(z, z, st.sl);
    var q := AdvTo(e, p, fl, y, x);
    assert AdvTo(e, p, fl, y, x + 1) == AdvStep(e, q, fl[y][x], y, x);
    assert Pending(q.dsurf, q.diceload, q.sl) == q;
  }

  /** The end of a row is the start of the next. */
  lemma AdvectedRow(e: Env, st: State, fl: seq<seq<AdvFlux>>, y: nat)
    requires Fits(e, st) && FluxGrid(fl, e.sim.ydim, e.sim.xdim) && y < e.sim.ydim
    ensures Advected(e, st, fl, y, e.sim.xdim) == Advected(e, st, fl, y + 1, 0)
  {
    var z := ConstGrid(e.sim.ydim, e.sim.xdim, 0.0);
    var p := Pending(z, z, st.sl);
    assert AdvTo(e, p, fl, y, e.sim.xdim) == AdvRows(e, p, fl, y + 1);
    if y + 1 < e.sim.ydim {
      assert AdvTo(e, p, fl, y + 1, 0) == AdvRows(e, p, fl, y + 1);
    }
  }

  /** After the last row the sweep is advect_entrainment. */
  lemma AdvectedDone(e: Env, st: State, draws: seq<seq<real>>)
    requires Fits(e, st) && IsGrid(draws, e.sim.ydim, e.sim.xdim)
    ensures Advected(e, st, AdvFluxes(e, st, draws), e.sim.ydim, 0) == Advect(e, st, draws)
  {
  }

  /** apply_dsurf: the pending changes are added to the surface and the
      iceload. */
  function ApplyDsurf(e: Env, st: State): (r: State)
    requires Fits(e, st)
    ensures Fits(e, r)
  {
    st.(surf := AddGrids(st.surf, st.dsurf, e.sim.ydim, e.sim.xdim),
        iceload := AddGrids(st.iceload, st.diceload, e.sim.ydim, e.sim.xdim))
  }

  /** One cell of apply_dsurf: its pending changes are added to it. */
  function ApplyStep(e: Env, s: State, y: nat, x: nat): (r: State)
    requires Fits(e, s) && y < e.sim.ydim && x < e.sim.xdim
    ensures Fits(e, r)
  {
    s.(surf := Put(s.surf, y, x, s.surf[y][x] + s.dsurf[y][x]),
       iceload := Put(s.iceload, y, x, s.iceload[y][x] + s.diceload[y][x]))
  }

  /** apply_dsurf's sweep from st up to but not including cell (y, x). */
  function ApplySweep(e: Env, st: State, y: nat, x: nat): (r: State)
    requires Fits(e, st) && y <= e.sim.ydim && x <= e.sim.xdim && (y < e.sim.ydim || x == 0)
    ensures Fits(e, r)
    ensures r == st.(surf := r.surf, iceload := r.iceload)
    decreases y, x
  {
    if x > 0 then ApplyStep(e, ApplySweep(e, st, y, x - 1), y, x - 1)
    else if y > 0 then ApplySweep(e, st, y - 1, e.sim.xdim)
    else st
  }

  /** The same sweep in closed form. */
  function ApplyMix(e: Env, st: State, y: int, x: int): (r: State)
    requires Fits(e, st)
    ensures Fits(e, r)
  {
    var ydim, xdim := e.sim.ydim, e.sim.xdim;
    st.(surf := Mix(st.surf, AddGrids(st.surf, st.dsurf, ydim, xdim), ydim, xdim, y, x),
        iceload := Mix(st.iceload, AddGrids(st.iceload, st.diceload, ydim, xdim), ydim, xdim, y, x))
  }

  /** One more cell: the sweep and the closed form stay equal. */
  lemma ApplyMixStep(e: Env, st: State, y: nat, x: nat)
    requires Fits(e, st) && y < e.sim.ydim && x < e.sim.xdim
    requires ApplySweep(e, st, y, x) == ApplyMix(e, st, y, x)
    ensures ApplySweep(e, st, y, x + 1) == ApplyMix(e, st, y, x + 1)
  {
    var ydim, xdim := e.sim.ydim, e.sim.xdim;
    MixStep(st.surf, AddGrids(st.surf, st.dsurf, ydim, xdim), ydim, xdim, y, x);
    MixStep(st.iceload, AddGrids(st.iceload, st.diceload, ydim, xdim), ydim, xdim, y, x);
  }

  /** The end of a row: the sweep and the closed form stay equal. */
  lemma ApplyMixRow(e: Env, st: State, y: nat)
    requires Fits(e, st) && y < e.sim.ydim
    requires ApplySweep(e, st, y, e.sim.xdim) == ApplyMix(e, st, y, e.sim.xdim)
    ensures ApplySweep(e, st, y + 1, 0) == ApplyMix(e, st, y + 1, 0)
  {
    var ydim, xdim := e.sim.ydim, e.sim.xdim;
    MixRow(st.surf, AddGrids(st.surf, st.dsurf, ydim, xdim), ydim, xdim, y);
    MixRow(st.iceload, AddGrids(st.iceload, st.diceload, ydim, xdim), ydim, xdim, y);
  }

  /** Before the first cell nothing has changed. */
  lemma ApplyMixStart(e: Env, st: State)
    requires Fits(e, st)
    ensures ApplySweep(e, st, 0, 0) == ApplyMix(e, st, 0, 0)
  {
    var ydim, xdim := e.sim.ydim, e.sim.xdim;
    MixStart(st.surf, AddGrids(st.surf, st.dsurf, ydim, xdim), ydim, xdim);
    MixStart(st.iceload, AddGrids(st.iceload, st.diceload, ydim, xdim), ydim, xdim);
  }

  lemma {:induction false} ApplySweepIsMix(e: Env, st: State, y: nat, x: nat)
    requires Fits(e, st) && y <= e.sim.ydim && x <= e.sim.xdim && (y < e.sim.ydim || x == 0)
    ensures ApplySweep(e, st, y, x) == ApplyMix(e, st, y, x)
    decreases y, x
  {
    if x > 0 {
      ApplySweepIsMix(e, st, y, x - 1);
      ApplyMixStep(e, st, y, x - 1);
    } else if y > 0 {
      ApplySweepIsMix(e, st, y - 1, e.sim.xdim);
      ApplyMixRow(e, st, y - 1);
    } else {
      ApplyMixStart(e, st);
    }
  }

  /** apply_dsurf as the source runs it, cell by cell, gives ApplyDsurf. */
  lemma ApplyBySweep(e: Env, st: State)
    requires Fits(e, st)
    ensures ApplySweep(e, st, e.sim.ydim, 0) == ApplyDsurf(e, st)
  {
    var ydim, xdim := e.sim.ydim, e.sim.xdim;
    ApplySweepIsMix(e, st, ydim, 0);
    MixDone(st.surf, AddGrids(st.surf, st.dsurf, ydim, xdim), ydim, xdim);
    MixDone(st.iceload, AddGrids(st.iceload, st.diceload, ydim, xdim), ydim, xdim);
  }

  /** advect_entrainment only moves sediment: its pending surface and
      iceload changes and the bleed it logs add up to nothing, and it logs
      no abrasion. */
  lemma AdvectPending(e: Env, st: State, draws: seq<seq<real>>)
    requires Fits(e, st) && IsGrid(draws, e.sim.ydim, e.sim.xdim)
    ensures var a := Advect(e, st, draws);
      && Total(a.dsurf) + Total(a.diceload) + (a.sl.totalBleed - st.sl.totalBleed) == 0.0
      && a.sl.abrasion == st.sl.abrasion
  {
    var z := ConstGrid(e.sim.ydim, e.sim.xdim, 0.0);
    TotalZero(e.sim.ydim, e.sim.xdim);
    AdvRowsConserve(e, Pending(z, z, st.sl), AdvFluxes(e, st, draws), e.sim.ydim);
  }

  /** Where every cell starts on or above the basement, a cell's pending
      surface change never takes more than the sediment above its basement,
      and its pending iceload change is its own entrainment. */
  lemma AdvectPendingFloor(e: Env, st: State, draws: seq<seq<real>>)
    requires Fits(e, st) && IsGrid(draws, e.sim.ydim, e.sim.xdim)
    requires forall y, x :: 0 <= y < e.sim.ydim && 0 <= x < e.sim.xdim ==> st.surf[y][x] >= st.bsmt[y][x]
    ensures var a := Advect(e, st, draws);
      forall y, x :: 0 <= y < e.sim.ydim && 0 <= x < e.sim.xdim ==>
        && st.surf[y][x] + a.dsurf[y][x] >= st.bsmt[y][x]
        && a.diceload[y][x] == AdvAt(e, st, draws, y, x).qEn
  {
    var z := ConstGrid(e.sim.ydim, e.sim.xdim, 0.0);
    var fl: seq<seq<AdvFlux>> := AdvFluxes(e, st, draws);
    forall i: int, j: int | 0 <= i < e.sim.ydim && 0 <= j < e.sim.xdim
      ensures fl[i][j].qAd >= 0.0 && st.surf[i][j] - (fl[i][j].qAd + fl[i][j].qEn) >= st.bsmt[i][j]
    {
      AdvAtBounds(e, st, draws, i, j);
    }
    AdvRowsFloor(e, Pending(z, z, st.sl), fl, e.sim.ydim);
  }

  // ---------------------------------------------------------------------------
  // erode_basement.
  // ---------------------------------------------------------------------------

  function ErodeAt(e: Env, st: State, y: nat, x: nat): Eroded
    requires Fits(e, st) && y < e.sim.ydim && x < e.sim.xdim
  {
    ErodeCell(e.sim, st.contact[y][x], st.surf[y][x], st.bsmt[y][x], st.basalPres[y][x], st.iceload[y][x], st.erodibility[y][x])
  }

  /** One output of erode_basement for every cell. */
  function ErodeField(e: Env, st: State, f: Eroded -> real): (r: seq<seq<real>>)
    requires Fits(e, st)
    ensures IsGrid(r, e.sim.ydim, e.sim.xdim)
    ensures forall y, x :: 0 <= y < e.sim.ydim && 0 <= x < e.sim.xdim ==> r[y][x] == f(ErodeAt(e, st, y, x))
  {
    seq(e.sim.ydim, y requires 0 <= y < e.sim.ydim =>
      seq(e.sim.xdim, x requires 0 <= x < e.sim.xdim => f(ErodeAt(e, st, y, x))))
  }

  /** erode_basement: exposed cells are abraded, and the log adds up every
      cell's abrasion. */
  function Erode(e: Env, st: State): (r: State)
    requires Fits(e, st)
    ensures Fits(e, r)
  {
    st.(bsmt := ErodeField(e, st, (c: Eroded) => c.bsmt), surf := ErodeField(e, st, (c: Eroded) => c.surf),
        iceload := ErodeField(e, st, (c: Eroded) => c.iceload),
        sl := st.sl.(abrasion := st.sl.abrasion + Total(ErodeField(e, st, (c: Eroded) => c.abrasion))))
  }

  /** One cell of erode_basement: its erosion, computed from the values it
      holds, is stored and its abrasion logged. */
  function ErodeStep(e: Env, s: State, y: nat, x: nat): (r: State)
    requires Fits(e, s) && y < e.sim.ydim && x < e.sim.xdim
    ensures Fits(e, r)
  {
    var c := ErodeAt(e, s, y, x);
    s.(bsmt := Put(s.bsmt, y, x, c.bsmt), surf := Put(s.surf, y, x, c.surf),
       iceload := Put(s.iceload, y, x, c.iceload), sl := s.sl.(abrasion := s.sl.abrasion + c.abrasion))
  }

  /** erode_basement's sweep from st up to but not including cell (y, x). */
  function ErodeSweep(e: Env, st: State, y: nat, x: nat): (r: State)
    requires Fits(e, st) && y <= e.sim.ydim && x <= e.sim.xdim && (y < e.sim.ydim || x == 0)
    ensures Fits(e, r)
    ensures r == st.(bsmt := r.bsmt, surf := r.surf, iceload := r.iceload, sl := r.sl)
    decreases y, x
  {
    if x > 0 then ErodeStep(e, ErodeSweep(e, st, y, x - 1), y, x - 1)
    else if y > 0 then ErodeSweep(e, st, y - 1, e.sim.xdim)
    else st
  }

  /** The same sweep in closed form: the cells before (y, x) hold their
      eroded values and the log has their abrasion. */
  function ErodeMix(e: Env, st: State, y: nat, x: nat): (r: State)
    requires Fits(e, st) && y <= e.sim.ydim && x <= e.sim.xdim && (y < e.sim.ydim || x == 0)
    ensures Fits(e, r)
  {
    var ydim, xdim := e.sim.ydim, e.sim.xdim;
    st.(bsmt := Mix(st.bsmt, ErodeField(e, st, (c: Eroded) => c.bsmt), ydim, xdim, y, x),
        surf := Mix(st.surf, ErodeField(e, st, (c: Eroded) => c.surf), ydim, xdim, y, x),
        iceload := Mix(st.iceload, ErodeField(e, st, (c: Eroded) => c.iceload), ydim, xdim, y, x),
        sl := st.sl.(abrasion := st.sl.abrasion + Upto(ErodeField(e, st, (c: Eroded) => c.abrasion), ydim, xdim, y, x)))
  }

  /** One more cell: the sweep and the closed form stay equal. */
  lemma ErodeMixStep(e: Env, st: State, y: nat, x: nat)
    requires Fits(e, st) && y < e.sim.ydim && x < e.sim.xdim
    requires ErodeSweep(e, st, y, x) == ErodeMix(e, st, y, x)
    ensures ErodeSweep(e, st, y, x + 1) == ErodeMix(e, st, y, x + 1)
  {
    var ydim, xdim := e.sim.ydim, e.sim.xdim;
    MixStep(st.bsmt, ErodeField(e, st, (c: Eroded) => c.bsmt), ydim, xdim, y, x);
    MixStep(st.surf, ErodeField(e, st, (c: Eroded) => c.surf), ydim, xdim, y, x);
    MixStep(st.iceload, ErodeField(e, st, (c: Eroded) => c.iceload), ydim, xdim, y, x);
    assert ErodeAt(e, ErodeMix(e, st, y, x), y, x) == ErodeAt(e, st, y, x);
  }

  /** The end of a row: the sweep and the closed form stay equal. */
  lemma ErodeMixRow(e: Env, st: State, y: nat)
    requires Fits(e, st) && y < e.sim.ydim
    requires ErodeSweep(e, st, y, e.sim.xdim) == ErodeMix(e, st, y, e.sim.xdim)
    ensures ErodeSweep(e, st, y + 1, 0) == ErodeMix(e, st, y + 1, 0)
  {
    var ydim, xdim := e.sim.ydim, e.sim.xdim;
    MixRow(st.bsmt, ErodeField(e, st, (c: Eroded) => c.bsmt), ydim, xdim, y);
    MixRow(st.surf, ErodeField(e, st, (c: Eroded) => c.surf), ydim, xdim, y);
    MixRow(st.iceload, ErodeField(e, st, (c: Eroded) => c.iceload), ydim, xdim, y);
  }

  /** Before the first cell nothing has changed. */
  lemma ErodeMixStart(e: Env, st: State)
    requires Fits(e, st)
    ensures ErodeSweep(e, st, 0, 0) == ErodeMix(e, st, 0, 0)
  {
    var ydim, xdim := e.sim.ydim, e.sim.xdim;
    MixStart(st.bsmt, ErodeField(e, st, (c: Eroded) => c.bsmt), ydim, xdim);
    MixStart(st.surf, ErodeField(e, st, (c: Eroded) => c.surf), ydim, xdim);
    MixStart(st.iceload, ErodeField(e, st, (c: Eroded) => c.iceload), ydim, xdim);
  }

  lemma {:induction false} ErodeSweepIsMix(e: Env, st: State, y: nat, x: nat)
    requires Fits(e, st) && y <= e.sim.ydim && x <= e.sim.xdim && (y < e.sim.ydim || x == 0)
    ensures ErodeSweep(e, st, y, x) == ErodeMix(e, st, y, x)
    decreases y, x
  {
    if x > 0 {
      ErodeSweepIsMix(e, st, y, x - 1);
      ErodeMixStep(e, st, y, x - 1);
    } else if y > 0 {
      ErodeSweepIsMix(e, st, y - 1, e.sim.xdim);
      ErodeMixRow(e, st, y - 1);
    } else {
      ErodeMixStart(e, st);
    }
  }

  /** erode_basement as the source runs it, cell by cell, gives Erode. */
  lemma ErodeBySweep(e: Env, st: State)
    requires Fits(e, st)
    ensures ErodeSweep(e, st, e.sim.ydim, 0) == Erode(e, st)
  {
    var ydim, xdim := e.sim.ydim, e.sim.xdim;
    ErodeSweepIsMix(e, st, ydim, 0);
    MixDone(st.bsmt, ErodeField(e, st, (c: Eroded) => c.bsmt), ydim, xdim);
    MixDone(st.surf, ErodeField(e, st, (c: Eroded) => c.surf), ydim, xdim);
    MixDone(st.iceload, ErodeField(e, st, (c: Eroded) => c.iceload), ydim, xdim);
    UptoDone(ErodeField(e, st, (c: Eroded) => c.abrasion), ydim, xdim);
  }

  /** Erosion takes the logged abrasion out of the basement total; an
      exposed cell sends the fraction f of its abrasion to the iceload and
      the rest to the sediment above its new basement; other cells do not
      change. */
  lemma ErodeBalance(e: Env, st: State)
    requires Fits(e, st)
    ensures var r := Erode(e, st);
      && Total(r.bsmt) == Total(st.bsmt) - (r.sl.abrasion - st.sl.abrasion)
      && forall y, x :: 0 <= y < e.sim.ydim && 0 <= x < e.sim.xdim ==>
           var a := ErodeAt(e, st, y, x).abrasion;
           && (Exposed(st.contact[y][x], st.surf[y][x], st.bsmt[y][x]) ==>
                 && r.bsmt[y][x] == st.bsmt[y][x] - a
                 && r.surf[y][x] - r.bsmt[y][x] == (1.0 - e.sim.iceloadSurfReturnFraction) * a
                 && r.iceload[y][x] - st.iceload[y][x] == e.sim.iceloadSurfReturnFraction * a)
           && (!Exposed(st.contact[y][x], st.surf[y][x], st.bsmt[y][x]) ==>
                 r.bsmt[y][x] == st.bsmt[y][x] && r.surf[y][x] == st.surf[y][x] &&
                 r.iceload[y][x] == st.iceload[y][x] && a == 0.0)
  {
    var r := Erode(e, st);
    var ag := ErodeField(e, st, (c: Eroded) => c.abrasion);
    forall y, x | 0 <= y < e.sim.ydim && 0 <= x < e.sim.xdim
      ensures st.bsmt[y][x] == r.bsmt[y][x] + ag[y][x]
      ensures var a := ErodeAt(e, st, y, x).abrasion;
           && (Exposed(st.contact[y][x], st.surf[y][x], st.bsmt[y][x]) ==>
                 && r.bsmt[y][x] == st.bsmt[y][x] - a
                 && r.surf[y][x] - r.bsmt[y][x] == (1.0 - e.sim.iceloadSurfReturnFraction) * a
                 && r.iceload[y][x] - st.iceload[y][x] == e.sim.iceloadSurfReturnFraction * a)
           && (!Exposed(st.contact[y][x], st.surf[y][x], st.bsmt[y][x]) ==>
                 r.bsmt[y][x] == st.bsmt[y][x] && r.surf[y][x] == st.surf[y][x] &&
                 r.iceload[y][x] == st.iceload[y][x] && a == 0.0)
    {
      ErodeSplits(e.sim, st.contact[y][x], st.surf[y][x], st.bsmt[y][x], st.basalPres[y][x], st.iceload[y][x], st.erodibility[y][x]);
    }
    TotalAdd(r.bsmt, ag, st.bsmt, e.sim.ydim, e.sim.xdim);
  }

  // ---------------------------------------------------------------------------
  // advect_entrainment, erode_basement and apply_dsurf in run's order.
  // ---------------------------------------------------------------------------

  /** The sediment of a state: the surface above the basement plus the
      iceload, over the whole grid. */
  function Sediment(s: State): real
  {
    Total(s.surf) - Total(s.bsmt) + Total(s.iceload)
  }

  /** The sediment of each cell. */
  function Column(e: Env, s: State): (r: seq<seq<real>>)
    requires Fits(e, s)
    ensures IsGrid(r, e.sim.ydim, e.sim.xdim)
    ensures forall y, x :: 0 <= y < e.sim.ydim && 0 <= x < e.sim.xdim ==>
      r[y][x] == s.surf[y][x] - s.bsmt[y][x] + s.iceload[y][x]
  {
    seq(e.sim.ydim, y requires 0 <= y < e.sim.ydim =>
      seq(e.sim.xdim, x requires 0 <= x < e.sim.xdim => s.surf[y][x] - s.bsmt[y][x] + s.iceload[y][x]))
  }

  lemma TotalColumn(e: Env, s: State)
    requires Fits(e, s)
    ensures Total(Column(e, s)) == Sediment(s)
  {
    var ydim, xdim := e.sim.ydim, e.sim.xdim;
    var u := AddGrids(s.surf, s.iceload, ydim, xdim);
    TotalAdd(Column(e, s), s.bsmt, u, ydim, xdim);
    TotalAdd(s.surf, s.iceload, u, ydim, xdim);
  }

  /** The film of sediment erode_basement discards: an exposed cell's
      surface is reset onto its lowered basement, so whatever lay above the
      old basement, less than EXPOSED_TOL either way, is dropped. */
  function Film(e: Env, contact: seq<seq<real>>, surf: seq<seq<real>>, bsmt: seq<seq<real>>): (r: seq<seq<real>>)
    requires IsGrid(contact, e.sim.ydim, e.sim.xdim) && IsGrid(surf, e.sim.ydim, e.sim.xdim) && IsGrid(bsmt, e.sim.ydim, e.sim.xdim)
    ensures IsGrid(r, e.sim.ydim, e.sim.xdim)
    ensures forall y, x :: 0 <= y < e.sim.ydim && 0 <= x < e.sim.xdim ==> -EXPOSED_TOL < r[y][x] < EXPOSED_TOL
    ensures forall y, x :: 0 <= y < e.sim.ydim && 0 <= x < e.sim.xdim ==>
      r[y][x] == if Exposed(contact[y][x], surf[y][x], bsmt[y][x]) then surf[y][x] - bsmt[y][x] else 0.0
  {
    seq(e.sim.ydim, y requires 0 <= y < e.sim.ydim =>
      seq(e.sim.xdim, x requires 0 <= x < e.sim.xdim =>
        if Exposed(contact[y][x], surf[y][x], bsmt[y][x]) then surf[y][x] - bsmt[y][x] else 0.0))
  }

  /** Sediment budget of erode_basement: the sediment grows by the abrasion
      it logs, less the film it drops. */
  lemma ErodeSediment(e: Env, st: State)
    requires Fits(e, st)
    ensures var m := Erode(e, st);
      Sediment(m) == Sediment(st) + (m.sl.abrasion - st.sl.abrasion) - Total(Film(e, st.contact, st.surf, st.bsmt))
  {
    ErodeColumns(e, st);
    TotalColumn(e, st);
    TotalColumn(e, Erode(e, st));
  }

  /** ErodeSediment over the per-cell sediment grids. */
  lemma ErodeColumns(e: Env, st: State)
    requires Fits(e, st)
    ensures var m := Erode(e, st);
      Total(Column(e, st)) + (m.sl.abrasion - st.sl.abrasion)
        == Total(Column(e, m)) + Total(Film(e, st.contact, st.surf, st.bsmt))
  {
    var ydim, xdim := e.sim.ydim, e.sim.xdim;
    var ag := ErodeField(e, st, (c: Eroded) => c.abrasion);
    var d := AddGrids(Column(e, st), ag, ydim, xdim);
    ErodeColumnsCellwise(e, st);
    TotalAdd(Column(e, Erode(e, st)), Film(e, st.contact, st.surf, st.bsmt), d, ydim, xdim);
    TotalAdd(Column(e, st), ag, d, ydim, xdim);
  }

  /** ErodeColumnCell at every cell. */
  lemma ErodeColumnsCellwise(e: Env, st: State)
    requires Fits(e, st)
    ensures var d := AddGrids(Column(e, st), ErodeField(e, st, (c: Eroded) => c.abrasion), e.sim.ydim, e.sim.xdim);
      forall y, x :: 0 <= y < e.sim.ydim && 0 <= x < e.sim.xdim ==>
        d[y][x] == Column(e, Erode(e, st))[y][x] + Film(e, st.contact, st.surf, st.bsmt)[y][x]
  {
    forall y, x | 0 <= y < e.sim.ydim && 0 <= x < e.sim.xdim
      ensures AddGrids(Column(e, st), ErodeField(e, st, (c: Eroded) => c.abrasion), e.sim.ydim, e.sim.xdim)[y][x]
        == Column(e, Erode(e, st))[y][x] + Film(e, st.contact, st.surf, st.bsmt)[y][x]
    {
      ErodeColumnCell(e, st, y, x);
    }
  }

  /** One cell of ErodeSediment: its sediment plus its abrasion is its
      eroded sediment plus its film. */
  lemma ErodeColumnCell(e: Env, st: State, y: nat, x: nat)
    requires Fits(e, st) && y < e.sim.ydim && x < e.sim.xdim
    ensures var m := Erode(e, st);
      Column(e, st)[y][x] + ErodeAt(e, st, y, x).abrasion
        == Column(e, m)[y][x] + Film(e, st.contact, st.surf, st.bsmt)[y][x]
  {
    ErodeSplits(e.sim, st.contact[y][x], st.surf[y][x], st.bsmt[y][x], st.basalPres[y][x], st.iceload[y][x], st.erodibility[y][x]);
  }

  /** The film dropped over the grid is less than EXPOSED_TOL per cell. */
  lemma FilmBound(e: Env, contact: seq<seq<real>>, surf: seq<seq<real>>, bsmt: seq<seq<real>>)
    requires IsGrid(contact, e.sim.ydim, e.sim.xdim) && IsGrid(surf, e.sim.ydim, e.sim.xdim) && IsGrid(bsmt, e.sim.ydim, e.sim.xdim)
    ensures var t := Total(Film(e, contact, surf, bsmt));
      -((e.sim.ydim * e.sim.xdim) as real * EXPOSED_TOL) <= t <= (e.sim.ydim * e.sim.xdim) as real * EXPOSED_TOL
  {
    TotalBound(Film(e, contact, surf, bsmt), e.sim.ydim, e.sim.xdim, EXPOSED_TOL);
    TimesNested(e.sim.ydim, e.sim.xdim, EXPOSED_TOL);
    TimesIsProduct(e.sim.ydim * e.sim.xdim, EXPOSED_TOL);
  }

  lemma {:induction false} TimesNested(m: nat, n: nat, c: real)
    ensures Times(m, Times(n, c)) == Times(m * n, c)
  {
    if m > 0 {
      TimesNested(m - 1, n, c);
      assert m * n == (m - 1) * n + n;
      TimesAdd((m - 1) * n, n, c);
    }
  }

  /** Sediment budget of advect_entrainment, erode_basement and apply_dsurf
      as run calls them: sediment plus bleed grows by the abrasion, less the
      film erosion drops from the cells that were exposed before the
      advection. */
  lemma AdvectErodeApplyBalance(e: Env, st: State, draws: seq<seq<real>>)
    requires Fits(e, st) && IsGrid(draws, e.sim.ydim, e.sim.xdim)
    ensures var r := ApplyDsurf(e, Erode(e, Advect(e, st, draws)));
      Sediment(r) + r.sl.totalBleed
        == Sediment(st) + st.sl.totalBleed + (r.sl.abrasion - st.sl.abrasion) - Total(Film(e, st.contact, st.surf, st.bsmt))
  {
    var ydim, xdim := e.sim.ydim, e.sim.xdim;
    var a := Advect(e, st, draws);
    var m := Erode(e, a);
    var r := ApplyDsurf(e, m);
    AdvectPending(e, st, draws);
    ErodeSediment(e, a);
    TotalAdd(m.surf, m.dsurf, r.surf, ydim, xdim);
    TotalAdd(m.iceload, m.diceload, r.iceload, ydim, xdim);
  }

  /** Advection, erosion and apply_dsurf in run's order, from a state on or
      above the basement: a cell that was not exposed stays on or above the
      basement; an exposed one may end below it, by less than EXPOSED_TOL
      net of the sediment its erosion returns to the surface. */
  lemma AdvectErodeApplyFloor(e: Env, st: State, draws: seq<seq<real>>)
    requires Fits(e, st) && IsGrid(draws, e.sim.ydim, e.sim.xdim)
    requires forall y, x :: 0 <= y < e.sim.ydim && 0 <= x < e.sim.xdim ==> st.surf[y][x] >= st.bsmt[y][x]
    ensures var r := ApplyDsurf(e, Erode(e, Advect(e, st, draws)));
      forall y, x :: 0 <= y < e.sim.ydim && 0 <= x < e.sim.xdim ==>
        && (!Exposed(st.contact[y][x], st.surf[y][x], st.bsmt[y][x]) ==> r.surf[y][x] >= r.bsmt[y][x])
        && (Exposed(st.contact[y][x], st.surf[y][x], st.bsmt[y][x]) ==>
              r.surf[y][x] - r.bsmt[y][x] > SurfShare(e.sim, ErodeAt(e, st, y, x).abrasion) - EXPOSED_TOL)
  {
    var a := Advect(e, st, draws);
    var m := Erode(e, a);
    var r := ApplyDsurf(e, m);
    AdvectPendingFloor(e, st, draws);
    forall y, x | 0 <= y < e.sim.ydim && 0 <= x < e.sim.xdim
      ensures !Exposed(st.contact[y][x], st.surf[y][x], st.bsmt[y][x]) ==> r.surf[y][x] >= r.bsmt[y][x]
      ensures Exposed(st.contact[y][x], st.surf[y][x], st.bsmt[y][x]) ==>
        r.surf[y][x] - r.bsmt[y][x] > SurfShare(e.sim, ErodeAt(e, st, y, x).abrasion) - EXPOSED_TOL
    {
      var c := ErodeAt(e, st, y, x);
      var d := a.dsurf[y][x];
      assert ErodeAt(e, a, y, x) == c;
      assert r.surf[y][x] == c.surf + d && r.bsmt[y][x] == c.bsmt;
      ErodedFloor(e.sim, st.contact[y][x], st.surf[y][x], st.bsmt[y][x], st.basalPres[y][x], st.iceload[y][x], st.erodibility[y][x], d);
    }
  }


  /** With sound erosion parameters and no negative pressure, iceload or
      erodibility, the same phases leave every cell above its basement less
      EXPOSED_TOL, so check_state finds no basement incursion. */
  lemma AdvectErodeApplyNearFloor(e: Env, st: State, draws: seq<seq<real>>)
    requires Fits(e, st) && IsGrid(draws, e.sim.ydim, e.sim.xdim) && ErosionSound(e.sim)
    requires forall y, x :: 0 <= y < e.sim.ydim && 0 <= x < e.sim.xdim ==>
      && st.surf[y][x] >= st.bsmt[y][x] && st.basalPres[y][x] >= 0.0 && st.iceload[y][x] >= 0.0 && st.erodibility[y][x] >= 0.0
    ensures var r := ApplyDsurf(e, Erode(e, Advect(e, st, draws)));
      forall y, x :: 0 <= y < e.sim.ydim && 0 <= x < e.sim.xdim ==>
        r.surf[y][x] - r.bsmt[y][x] > -EXPOSED_TOL && !BasementError(r.surf[y][x], r.bsmt[y][x])
  {
    AdvectErodeApplyFloor(e, st, draws);
    forall y, x | 0 <= y < e.sim.ydim && 0 <= x < e.sim.xdim
      ensures SurfShare(e.sim, ErodeAt(e, st, y, x).abrasion) >= 0.0
    {
      SurfShareNonNegative(e.sim, st.contact[y][x], st.surf[y][x], st.bsmt[y][x], st.basalPres[y][x], st.iceload[y][x], st.erodibility[y][x]);
    }
  }

  /** advect_entrainment, erode_basement and apply_dsurf, in run's order. */
  function AdvectErodeApply(e: Env, st: State, draws: seq<seq<real>>): (r: State)
    requires Fits(e, st) && IsGrid(draws, e.sim.ydim, e.sim.xdim)
    ensures Fits(e, r)
  {
    ApplyDsurf(e, Erode(e, Advect(e, st, draws)))
  }

  /** One non-periodic cell in contact, 5e-11 above its basement, with a
      unit basal pressure, advection rate and abrasion, and an iceload
      return fraction of 1. */
  const FILM_ENV := Env(Sim(1, 1, 1.0, 0.0, 0.0, 1.0, 0.0, 1.0, 1.0, 0.0, 0.0, 0.0, 0.0, 0.0, 0.0, 0.0, 0.0,
                            0.0, 1.0, 0.0, 1.0, 1.0, 0.0, 0.0, "", "", "", 0.0, 0.0, 0.0),
                        Topo([0], [0], [0], [0], [-1], [-1], [-1], [-1]), 0.0, 0.0)
  const FILM_STATE := State([[0.00000000005]], [[0.0]], [[1.0]], [[0.0]], [[0.0]], [[1.0]], [[0.0]], [[1.0]],
                            [[0.0]], [[0.0]], [[0.0]], [[0.0]], [[0.0]], ZERO_LEDGER)

  /** The exact floor fails in run's order: on FILM_STATE an advection of 1
      is cut to the 5e-11 available, erosion resets the surface onto the
      basement lowered by the abrasion and returns it all to the iceload,
      and apply_dsurf then takes the 5e-11, so the surface ends 5e-11 below
      the basement, which check_state's BSMT_TOL still accepts. */
  lemma ExactFloorFails()
    ensures Fits(FILM_ENV, FILM_STATE) && FILM_STATE.surf[0][0] >= FILM_STATE.bsmt[0][0]
    ensures FILM_ENV.sim.ydim == 1 && FILM_ENV.sim.xdim == 1 && IsGrid([[0.5]], FILM_ENV.sim.ydim, FILM_ENV.sim.xdim)
    ensures var r := AdvectErodeApply(FILM_ENV, FILM_STATE, [[0.5]]);
      r.surf[0][0] - r.bsmt[0][0] == -0.00000000005 && !BasementError(r.surf[0][0], r.bsmt[0][0])
  {
    FilmFlux();
    FilmExposed();
    OneCellFloorFails(FILM_ENV, FILM_STATE, [[0.5]]);
  }

  /** FILM_STATE's one cell is exposed with 5e-11 of sediment, and FILM_ENV
      returns all abrasion to the iceload. */
  lemma FilmExposed()
    ensures FILM_STATE.surf[0][0] - FILM_STATE.bsmt[0][0] == 0.00000000005
    ensures Exposed(FILM_STATE.contact[0][0], FILM_STATE.surf[0][0], FILM_STATE.bsmt[0][0])
    ensures FILM_ENV.sim.iceloadSurfReturnFraction == 1.0
  {
  }

  /** On a one-cell grid whose east edge bleeds, an exposed cell whose
      advection takes its whole sediment above the basement, and whose
      erosion returns all of its abrasion to the iceload, ends in run's order
      below its new basement by that sediment. */
  lemma OneCellFloorFails(e: Env, st: State, draws: seq<seq<real>>)
    requires Fits(e, st) && IsGrid(draws, e.sim.ydim, e.sim.xdim)
    requires e.sim.ydim == 1 && e.sim.xdim == 1 && e.topo.e1m[0] == TOXIC_COORD
    requires Exposed(st.contact[0][0], st.surf[0][0], st.bsmt[0][0]) && e.sim.iceloadSurfReturnFraction == 1.0
    requires AdvAt(e, st, draws, 0, 0) == AdvFlux(st.surf[0][0] - st.bsmt[0][0], 0.0)
    ensures var r := AdvectErodeApply(e, st, draws);
      r.surf[0][0] - r.bsmt[0][0] == -(st.surf[0][0] - st.bsmt[0][0]) && !BasementError(r.surf[0][0], r.bsmt[0][0])
  {
    OneCellAdvect(e, st, draws);
    ReturnAllFloor(e, st, draws, 0, 0);
  }

  /** In run's order, an exposed cell whose whole abrasion returns to the
      iceload ends with its surface above its new basement by exactly its
      pending change, whatever it held above the old basement. */
  lemma ReturnAllFloor(e: Env, st: State, draws: seq<seq<real>>, y: nat, x: nat)
    requires Fits(e, st) && IsGrid(draws, e.sim.ydim, e.sim.xdim) && y < e.sim.ydim && x < e.sim.xdim
    requires Exposed(st.contact[y][x], st.surf[y][x], st.bsmt[y][x]) && e.sim.iceloadSurfReturnFraction == 1.0
    ensures var r := ApplyDsurf(e, Erode(e, Advect(e, st, draws)));
      r.surf[y][x] - r.bsmt[y][x] == Advect(e, st, draws).dsurf[y][x]
  {
    AdvectErodeApplyCell(e, st, draws, y, x);
    ErodeReturnsAll(e.sim, st.contact[y][x], st.surf[y][x], st.bsmt[y][x], st.basalPres[y][x], st.iceload[y][x], st.erodibility[y][x]);
  }

  /** advect_entrainment writes no raster that erode_basement reads, so in
      run's order a cell ends with its own erosion plus its pending change. */
  lemma AdvectErodeApplyCell(e: Env, st: State, draws: seq<seq<real>>, y: nat, x: nat)
    requires Fits(e, st) && IsGrid(draws, e.sim.ydim, e.sim.xdim) && y < e.sim.ydim && x < e.sim.xdim
    ensures var r := ApplyDsurf(e, Erode(e, Advect(e, st, draws)));
      && r.surf[y][x] == ErodeAt(e, st, y, x).surf + Advect(e, st, draws).dsurf[y][x]
      && r.bsmt[y][x] == ErodeAt(e, st, y, x).bsmt
  {
    var a := Advect(e, st, draws);
    assert ErodeAt(e, a, y, x) == ErodeAt(e, st, y, x);
    ErodeApplyCell(e, a, y, x);
  }

  /** One cell after erode_basement and apply_dsurf: the eroded surface plus
      the pending change, over the eroded basement. */
  lemma ErodeApplyCell(e: Env, st: State, y: nat, x: nat)
    requires Fits(e, st) && y < e.sim.ydim && x < e.sim.xdim
    ensures ApplyDsurf(e, Erode(e, st)).surf[y][x] == ErodeAt(e, st, y, x).surf + st.dsurf[y][x]
    ensures ApplyDsurf(e, Erode(e, st)).bsmt[y][x] == ErodeAt(e, st, y, x).bsmt
  {
  }

  /** On a one-cell grid whose east edge bleeds, advect_entrainment takes the
      cell's advection and entrainment from dsurf and gives the entrainment
      to diceload. */
  lemma OneCellAdvect(e: Env, st: State, draws: seq<seq<real>>)
    requires Fits(e, st) && IsGrid(draws, e.sim.ydim, e.sim.xdim)
    requires e.sim.ydim == 1 && e.sim.xdim == 1 && e.topo.e1m[0] == TOXIC_COORD
    ensures Advect(e, st, draws).dsurf[0][0] == -(AdvAt(e, st, draws, 0, 0).qAd + AdvAt(e, st, draws, 0, 0).qEn)
    ensures Advect(e, st, draws).diceload[0][0] == AdvAt(e, st, draws, 0, 0).qEn
  {
    var fl := AdvFluxes(e, st, draws);
    var z := ConstGrid(1, 1, 0.0);
    var p0 := Pending(z, z, st.sl);
    assert AdvRows(e, p0, fl, 1) == AdvRow(e, p0, fl, 0, 1) == AdvStep(e, p0, fl[0][0], 0, 0);
  }

  /** The one cell of ExactFloorFails advects its whole 5e-11 of sediment: the
      limit caps the uncut flux of 1/2 at what lies above the basement. */
  lemma FilmFlux()
    ensures Fits(FILM_ENV, FILM_STATE) && IsGrid([[0.5]], FILM_ENV.sim.ydim, FILM_ENV.sim.xdim)
    ensures FILM_ENV.sim.ydim == 1 && FILM_ENV.sim.xdim == 1 && FILM_ENV.topo.e1m[0] == TOXIC_COORD
    ensures AdvAt(FILM_ENV, FILM_STATE, [[0.5]], 0, 0) == AdvFlux(0.00000000005, 0.0)
  {
    FilmCell();
    FilmRates();
  }

  /** The fluxes of ExactFloorFails' cell from its unit pressure, contact and
      empty iceload. */
  lemma FilmCell()
    ensures Fits(FILM_ENV, FILM_STATE) && IsGrid([[0.5]], FILM_ENV.sim.ydim, FILM_ENV.sim.xdim)
    ensures FILM_ENV.sim.ydim == 1 && FILM_ENV.sim.xdim == 1 && FILM_ENV.topo.e1m[0] == TOXIC_COORD
    ensures AdvAt(FILM_ENV, FILM_STATE, [[0.5]], 0, 0)
      == AdvLimit(Advection(1.0, 1.0, FILM_ENV.sim, 0.5), Entrainment(1.0, 1.0, 0.0, FILM_ENV.sim), 0.00000000005, 0.0)
  {
    FilmFits();
  }

  /** The rules on ExactFloorFails' cell: a unit pressure on both sides
      advects 1, nothing is entrained, and the basement check cuts the
      advection to the 5e-11 available. */
  lemma FilmRates()
    ensures Advection(1.0, 1.0, FILM_ENV.sim, 0.5) == 1.0
    ensures Entrainment(1.0, 1.0, 0.0, FILM_ENV.sim) == 0.0
    ensures AdvLimit(1.0, 0.0, 0.00000000005, 0.0) == AdvFlux(0.00000000005, 0.0)
  {
    FilmAdvection();
    FilmEntrainment();
  }

  lemma FilmAdvection()
    ensures Advection(1.0, 1.0, FILM_ENV.sim, 0.5) == 1.0
  {
  }

  lemma FilmEntrainment()
    ensures Entrainment(1.0, 1.0, 0.0, FILM_ENV.sim) == 0.0
  {
  }

  /** FILM_STATE is a state of FILM_ENV's one-cell grid. */
  lemma FilmFits()
    ensures Fits(FILM_ENV, FILM_STATE) && IsGrid([[0.5]], FILM_ENV.sim.ydim, FILM_ENV.sim.xdim)
  {
    assert SimOk(FILM_ENV.sim);
    assert TopoOk(FILM_ENV.topo, 1, 1);
    assert Shaped(FILM_STATE, 1, 1);
  }

  // ---------------------------------------------------------------------------
  // surf_bleed and iceload_bleed.
  // ---------------------------------------------------------------------------

  /** surf_bleed's outcome for cell (y, x). */
  function SurfBleedAt(e: Env, st: State, y: nat, x: nat): Bled
    requires Fits(e, st) && y < e.sim.ydim && x < e.sim.xdim
  {
    SurfBleedCell(st.surf[y][x], st.bsmt[y][x], SurfBleedAmount(e.sim))
  }

  function SurfBleedField(e: Env, st: State, f: Bled -> real): (r: seq<seq<real>>)
    requires Fits(e, st)
    ensures IsGrid(r, e.sim.ydim, e.sim.xdim)
    ensures forall y, x :: 0 <= y < e.sim.ydim && 0 <= x < e.sim.xdim ==>
      r[y][x] == f(SurfBleedCell(st.surf[y][x], st.bsmt[y][x], SurfBleedAmount(e.sim)))
  {
    seq(e.sim.ydim, y requires 0 <= y < e.sim.ydim =>
      seq(e.sim.xdim, x requires 0 <= x < e.sim.xdim =>
        f(SurfBleedCell(st.surf[y][x], st.bsmt[y][x], SurfBleedAmount(e.sim)))))
  }

  /** surf_bleed: with a non-zero rate, every cell loses its share down to
      the basement and the log adds what was taken. */
  function SurfBleed(e: Env, st: State): (r: State)
    requires Fits(e, st)
    ensures Fits(e, r)
  {
    if e.sim.surfBleed != 0.0 then
      st.(surf := SurfBleedField(e, st, (b: Bled) => b.value),
          sl := st.sl.(surfBleed := st.sl.surfBleed + Total(SurfBleedField(e, st, (b: Bled) => b.applied))))
    else st
  }

  /** One cell of surf_bleed: the cell is bled from the value it holds and
      the log adds what was taken. */
  function SurfBleedStep(e: Env, s: State, y: nat, x: nat): (r: State)
    requires Fits(e, s) && y < e.sim.ydim && x < e.sim.xdim
    ensures Fits(e, r)
  {
    var b := SurfBleedAt(e, s, y, x);
    s.(surf := Put(s.surf, y, x, b.value), sl := s.sl.(surfBleed := s.sl.surfBleed + b.applied))
  }

  /** surf_bleed's sweep (with a non-zero rate) from st up to but not including
      cell (y, x). */
  function SurfBleedSweep(e: Env, st: State, y: nat, x: nat): (r: State)
    requires Fits(e, st) && y <= e.sim.ydim && x <= e.sim.xdim && (y < e.sim.ydim || x == 0)
    ensures Fits(e, r)
    ensures r == st.(surf := r.surf, sl := r.sl)
    decreases y, x
  {
    if x > 0 then SurfBleedStep(e, SurfBleedSweep(e, st, y, x - 1), y, x - 1)
    else if y > 0 then SurfBleedSweep(e, st, y - 1, e.sim.xdim)
    else st
  }

  /** The same sweep in closed form. */
  function SurfBleedMix(e: Env, st: State, y: nat, x: nat): (r: State)
    requires Fits(e, st) && y <= e.sim.ydim && x <= e.sim.xdim && (y < e.sim.ydim || x == 0)
    ensures Fits(e, r)
  {
    var ydim, xdim := e.sim.ydim, e.sim.xdim;
    st.(surf := Mix(st.surf, SurfBleedField(e, st, (b: Bled) => b.value), ydim, xdim, y, x),
        sl := st.sl.(surfBleed := st.sl.surfBleed + Upto(SurfBleedField(e, st, (b: Bled) => b.applied), ydim, xdim, y, x)))
  }

  /** One more cell: the sweep and the closed form stay equal. */
  lemma SurfBleedMixStep(e: Env, st: State, y: nat, x: nat)
    requires Fits(e, st) && y < e.sim.ydim && x < e.sim.xdim
    requires SurfBleedSweep(e, st, y, x) == SurfBleedMix(e, st, y, x)
    ensures SurfBleedSweep(e, st, y, x + 1) == SurfBleedMix(e, st, y, x + 1)
  {
    MixStep(st.surf, SurfBleedField(e, st, (b: Bled) => b.value), e.sim.ydim, e.sim.xdim, y, x);
    assert SurfBleedAt(e, SurfBleedMix(e, st, y, x), y, x) == SurfBleedAt(e, st, y, x);
  }

  /** The end of a row: the sweep and the closed form stay equal. */
  lemma SurfBleedMixRow(e: Env, st: State, y: nat)
    requires Fits(e, st) && y < e.sim.ydim
    requires SurfBleedSweep(e, st, y, e.sim.xdim) == SurfBleedMix(e, st, y, e.sim.xdim)
    ensures SurfBleedSweep(e, st, y + 1, 0) == SurfBleedMix(e, st, y + 1, 0)
  {
    MixRow(st.surf, SurfBleedField(e, st, (b: Bled) => b.value), e.sim.ydim, e.sim.xdim, y);
  }

  /** Before the first cell nothing has changed. */
  lemma SurfBleedMixStart(e: Env, st: State)
    requires Fits(e, st)
    ensures SurfBleedSweep(e, st, 0, 0) == SurfBleedMix(e, st, 0, 0)
  {
    MixStart(st.surf, SurfBleedField(e, st, (b: Bled) => b.value), e.sim.ydim, e.sim.xdim);
  }

  lemma {:induction false} SurfBleedSweepIsMix(e: Env, st: State, y: nat, x: nat)
    requires Fits(e, st) && y <= e.sim.ydim && x <= e.sim.xdim && (y < e.sim.ydim || x == 0)
    ensures SurfBleedSweep(e, st, y, x) == SurfBleedMix(e, st, y, x)
    decreases y, x + 1
  {
    if x > 0 {
      SurfBleedSweepIsMix(e, st, y, x - 1);
      SurfBleedMixStep(e, st, y, x - 1);
    } else {
      SurfBleedRowStartIsMix(e, st, y);
    }
  }

  /** SurfBleedSweepIsMix at the start of row y. */
  lemma {:induction false} SurfBleedRowStartIsMix(e: Env, st: State, y: nat)
    requires Fits(e, st) && y <= e.sim.ydim
    ensures SurfBleedSweep(e, st, y, 0) == SurfBleedMix(e, st, y, 0)
    decreases y, 0
  {
    if y > 0 {
      SurfBleedSweepIsMix(e, st, y - 1, e.sim.xdim);
      SurfBleedMixRow(e, st, y - 1);
    } else {
      SurfBleedMixStart(e, st);
    }
  }

  /** With a non-zero rate, surf_bleed as the source runs it, cell by cell,
      gives SurfBleed. */
  lemma SurfBleedBySweep(e: Env, st: State)
    requires Fits(e, st) && e.sim.surfBleed != 0.0
    ensures SurfBleedSweep(e, st, e.sim.ydim, 0) == SurfBleed(e, st)
  {
    var ydim, xdim := e.sim.ydim, e.sim.xdim;
    SurfBleedSweepIsMix(e, st, ydim, 0);
    MixDone(st.surf, SurfBleedField(e, st, (b: Bled) => b.value), ydim, xdim);
    UptoDone(SurfBleedField(e, st, (b: Bled) => b.applied), ydim, xdim);
  }

  /** The surface bleed keeps sediment plus log constant and leaves no cell
      below the basement; a zero rate changes nothing. */
  lemma SurfBleedBalance(e: Env, st: State)
    requires Fits(e, st)
    ensures var r := SurfBleed(e, st);
      && Total(r.surf) + r.sl.surfBleed == Total(st.surf) + st.sl.surfBleed
      && r.bsmt == st.bsmt
      && (e.sim.surfBleed == 0.0 ==> r == st)
      && (e.sim.surfBleed != 0.0 ==> forall y, x :: 0 <= y < e.sim.ydim && 0 <= x < e.sim.xdim ==> r.surf[y][x] >= r.bsmt[y][x])
  {
    if e.sim.surfBleed != 0.0 {
      TotalAdd(SurfBleedField(e, st, (b: Bled) => b.value), SurfBleedField(e, st, (b: Bled) => b.applied), st.surf, e.sim.ydim, e.sim.xdim);
    }
  }

  /** iceload_bleed's outcome for cell (y, x). */
  function IceloadBleedAt(e: Env, st: State, y: nat, x: nat): Bled
    requires Fits(e, st) && y < e.sim.ydim && x < e.sim.xdim
  {
    IceloadBleedCell(st.iceload[y][x], IceloadBleedAmount(e.sim))
  }

  function IceloadBleedField(e: Env, st: State, f: Bled -> real): (r: seq<seq<real>>)
    requires Fits(e, st)
    ensures IsGrid(r, e.sim.ydim, e.sim.xdim)
    ensures forall y, x :: 0 <= y < e.sim.ydim && 0 <= x < e.sim.xdim ==>
      r[y][x] == f(IceloadBleedCell(st.iceload[y][x], IceloadBleedAmount(e.sim)))
  {
    seq(e.sim.ydim, y requires 0 <= y < e.sim.ydim =>
      seq(e.sim.xdim, x requires 0 <= x < e.sim.xdim =>
        f(IceloadBleedCell(st.iceload[y][x], IceloadBleedAmount(e.sim)))))
  }

  /** iceload_bleed, with its non-diffusive rule: with a non-zero rate, every
      cell loses its share down to zero and the log adds what was taken. */
  function IceloadBleed(e: Env, st: State): (r: State)
    requires Fits(e, st)
    ensures Fits(e, r)
    ensures r.surf == st.surf && r.bsmt == st.bsmt
  {
    if e.sim.iceloadBleed != 0.0 then
      st.(iceload := IceloadBleedField(e, st, (b: Bled) => b.value),
          sl := st.sl.(iceloadBleed := st.sl.iceloadBleed + Total(IceloadBleedField(e, st, (b: Bled) => b.applied))))
    else st
  }

  /** One cell of iceload_bleed: the cell is bled from the value it holds and
      the log adds what was taken. */
  function IceloadBleedStep(e: Env, s: State, y: nat, x: nat): (r: State)
    requires Fits(e, s) && y < e.sim.ydim && x < e.sim.xdim
    ensures Fits(e, r)
  {
    var b := IceloadBleedAt(e, s, y, x);
    s.(iceload := Put(s.iceload, y, x, b.value), sl := s.sl.(iceloadBleed := s.sl.iceloadBleed + b.applied))
  }

  /** iceload_bleed's sweep (with a non-zero rate) from st up to but not including
      cell (y, x). */
  function IceloadBleedSweep(e: Env, st: State, y: nat, x: nat): (r: State)
    requires Fits(e, st) && y <= e.sim.ydim && x <= e.sim.xdim && (y < e.sim.ydim || x == 0)
    ensures Fits(e, r)
    ensures r == st.(iceload := r.iceload, sl := r.sl)
    decreases y, x
  {
    if x > 0 then IceloadBleedStep(e, IceloadBleedSweep(e, st, y, x - 1), y, x - 1)
    else if y > 0 then IceloadBleedSweep(e, st, y - 1, e.sim.xdim)
    else st
  }

  /** The same sweep in closed form. */
  function IceloadBleedMix(e: Env, st: State, y: nat, x: nat): (r: State)
    requires Fits(e, st) && y <= e.sim.ydim && x <= e.sim.xdim && (y < e.sim.ydim || x == 0)
    ensures Fits(e, r)
  {
    var ydim, xdim := e.sim.ydim, e.sim.xdim;
    st.(iceload := Mix(st.iceload, IceloadBleedField(e, st, (b: Bled) => b.value), ydim, xdim, y, x),
        sl := st.sl.(iceloadBleed := st.sl.iceloadBleed + Upto(IceloadBleedField(e, st, (b: Bled) => b.applied), ydim, xdim, y, x)))
  }

  /** One more cell: the sweep and the closed form stay equal. */
  lemma IceloadBleedMixStep(e: Env, st: State, y: nat, x: nat)
    requires Fits(e, st) && y < e.sim.ydim && x < e.sim.xdim
    requires IceloadBleedSweep(e, st, y, x) == IceloadBleedMix(e, st, y, x)
    ensures IceloadBleedSweep(e, st, y, x + 1) == IceloadBleedMix(e, st, y, x + 1)
  {
    MixStep(st.iceload, IceloadBleedField(e, st, (b: Bled) => b.value), e.sim.ydim, e.sim.xdim, y, x);
    assert IceloadBleedAt(e, IceloadBleedMix(e, st, y, x), y, x) == IceloadBleedAt(e, st, y, x);
  }

  /** The end of a row: the sweep and the closed form stay equal. */
  lemma IceloadBleedMixRow(e: Env, st: State, y: nat)
    requires Fits(e, st) && y < e.sim.ydim
    requires IceloadBleedSweep(e, st, y, e.sim.xdim) == IceloadBleedMix(e, st, y, e.sim.xdim)
    ensures IceloadBleedSweep(e, st, y + 1, 0) == IceloadBleedMix(e, st, y + 1, 0)
  {
    MixRow(st.iceload, IceloadBleedField(e, st, (b: Bled) => b.value), e.sim.ydim, e.sim.xdim, y);
  }

  /** Before the first cell nothing has changed. */
  lemma IceloadBleedMixStart(e: Env, st: State)
    requires Fits(e, st)
    ensures IceloadBleedSweep(e, st, 0, 0) == IceloadBleedMix(e, st, 0, 0)
  {
    MixStart(st.iceload, IceloadBleedField(e, st, (b: Bled) => b.value), e.sim.ydim, e.sim.xdim);
  }

  lemma {:induction false} IceloadBleedSweepIsMix(e: Env, st: State, y: nat, x: nat)
    requires Fits(e, st) && y <= e.sim.ydim && x <= e.sim.xdim && (y < e.sim.ydim || x == 0)
    ensures IceloadBleedSweep(e, st, y, x) == IceloadBleedMix(e, st, y, x)
    decreases y, x
  {
    if x > 0 {
      IceloadBleedSweepIsMix(e, st, y, x - 1);
      IceloadBleedMixStep(e, st, y, x - 1);
    } else if y > 0 {
      IceloadBleedSweepIsMix(e, st, y - 1, e.sim.xdim);
      IceloadBleedMixRow(e, st, y - 1);
    } else {
      IceloadBleedMixStart(e, st);
    }
  }

  /** With a non-zero rate, iceload_bleed as the source runs it, cell by cell,
      gives IceloadBleed. */
  lemma IceloadBleedBySweep(e: Env, st: State)
    requires Fits(e, st) && e.sim.iceloadBleed != 0.0
    ensures IceloadBleedSweep(e, st, e.sim.ydim, 0) == IceloadBleed(e, st)
  {
    var ydim, xdim := e.sim.ydim, e.sim.xdim;
    IceloadBleedSweepIsMix(e, st, ydim, 0);
    MixDone(st.iceload, IceloadBleedField(e, st, (b: Bled) => b.value), ydim, xdim);
    UptoDone(IceloadBleedField(e, st, (b: Bled) => b.applied), ydim, xdim);
  }

  /** The iceload bleed keeps iceload plus log constant and leaves no cell
      negative; a zero rate changes nothing. */
  lemma IceloadBleedBalance(e: Env, st: State)
    requires Fits(e, st)
    ensures var r := IceloadBleed(e, st);
      && Total(r.iceload) + r.sl.iceloadBleed == Total(st.iceload) + st.sl.iceloadBleed
      && (e.sim.iceloadBleed == 0.0 ==> r == st)
      && (e.sim.iceloadBleed != 0.0 ==> forall y, x :: 0 <= y < e.sim.ydim && 0 <= x < e.sim.xdim ==> r.iceload[y][x] >= 0.0)
  {
    if e.sim.iceloadBleed != 0.0 {
      TotalAdd(IceloadBleedField(e, st, (b: Bled) => b.value), IceloadBleedField(e, st, (b: Bled) => b.applied), st.iceload, e.sim.ydim, e.sim.xdim);
    }
  }

  // ---------------------------------------------------------------------------
  // One timestep.
  // ---------------------------------------------------------------------------

  /** run: move the ice, squish in the poll order (ys, xs), advect and
      entrain, erode, apply the pending changes, then the two bleeds. A halt
      in the squish ends the step with its status. */
  function RunStep(e: Env, st: State, ys: seq<int>, xs: seq<int>, draws: seq<seq<real>>): (r: Outcome<State>)
    requires Fits(e, st) && InGrid(ys, xs, e.sim.ydim, e.sim.xdim) && IsGrid(draws, e.sim.ydim, e.sim.xdim)
    ensures r.Done? ==> Fits(e, r.value)
  {
    var s1 := MoveIce(e, st);
    match Squish(e, s1, ys, xs, |ys|)
    case Halt(c) => Halt(c)
    case Done(s2) => Done(Phases(e, s2, draws))
  }

  /** The phases of run after the squish, in order. */
  function Phases(e: Env, s: State, draws: seq<seq<real>>): (r: State)
    requires Fits(e, s) && IsGrid(draws, e.sim.ydim, e.sim.xdim)
    ensures Fits(e, r)
  {
    IceloadBleed(e, SurfBleed(e, ApplyDsurf(e, Erode(e, Advect(e, s, draws)))))
  }

  /** The ice-error and basement-error tests of check_state over the grid. */
  predicate HasIceError(e: Env, st: State)
    requires Fits(e, st)
  {
    exists y, x :: 0 <= y < e.sim.ydim && 0 <= x < e.sim.xdim && IceError(st.ice[y][x], st.surf[y][x])
  }

  predicate HasBasementError(e: Env, st: State)
    requires Fits(e, st)
  {
    exists y, x :: 0 <= y < e.sim.ydim && 0 <= x < e.sim.xdim && BasementError(st.surf[y][x], st.bsmt[y][x])
  }

  /** A step halts exactly when its squish halts, and then with the
      ice-ceiling status 10. */
  lemma RunStepHalt(e: Env, st: State, ys: seq<int>, xs: seq<int>, draws: seq<seq<real>>)
    requires Fits(e, st) && InGrid(ys, xs, e.sim.ydim, e.sim.xdim) && IsGrid(draws, e.sim.ydim, e.sim.xdim)
    ensures RunStep(e, st, ys, xs, draws).Halt? <==> Squish(e, MoveIce(e, st), ys, xs, |ys|).Halt?
    ensures RunStep(e, st, ys, xs, draws).Halt? ==> RunStep(e, st, ys, xs, draws).code == 10
  {
    var m := MoveIce(e, st);
    if Squish(e, m, ys, xs, |ys|).Halt? {
      SquishHaltIsCeiling(e, m, ys, xs, |ys|);
    }
  }

  /** The parameters the step results need: no negative pressure fudge, ice
      moving forward at most a cell per timestep, and sound erosion. */
  predicate StepSound(e: Env)
  {
    e.fudge >= 0.0 && StableAdvection(e.sim) && e.sim.iceAdvection * e.sim.lenTimestep >= 0.0 && ErosionSound(e.sim)
  }

  /** A state a step can start from: sediment on the bed, no negative
      iceload or erodibility, and no ice base below the basement once the
      ice has moved. */
  ghost predicate Bedded(e: Env, st: State)
    requires Fits(e, st)
  {
    && (forall y, x :: 0 <= y < e.sim.ydim && 0 <= x < e.sim.xdim ==>
          st.surf[y][x] >= st.bsmt[y][x] && st.iceload[y][x] >= 0.0 && st.erodibility[y][x] >= 0.0)
    && (forall y, x :: 0 <= y < e.sim.ydim && 0 <= x < e.sim.xdim ==> MoveIce(e, st).ice[y][x] >= st.bsmt[y][x])
  }

  /** No cell below the basement or with a negative pressure, iceload or
      erodibility: what advection and erosion need to keep their bounds. */
  ghost predicate OnBed(e: Env, st: State)
    requires Fits(e, st)
  {
    forall y, x :: 0 <= y < e.sim.ydim && 0 <= x < e.sim.xdim ==>
      && st.surf[y][x] >= st.bsmt[y][x] && st.basalPres[y][x] >= 0.0
      && st.iceload[y][x] >= 0.0 && st.erodibility[y][x] >= 0.0
  }

  /** move_ice from a bedded state leaves it grounded, with no negative
      iceload or erodibility. */
  lemma MovedGrounded(e: Env, st: State)
    requires Fits(e, st) && StepSound(e) && Bedded(e, st)
    ensures Grounded(e, MoveIce(e, st))
    ensures forall y, x :: 0 <= y < e.sim.ydim && 0 <= x < e.sim.xdim ==>
      MoveIce(e, st).iceload[y][x] >= 0.0 && MoveIce(e, st).erodibility[y][x] >= 0.0
  {
    var r := MoveIce(e, st);
    MoveIceState(e, st);
    forall y, x | 0 <= y < e.sim.ydim && 0 <= x < e.sim.xdim
      ensures r.basalPres[y][x] >= 0.0 && r.iceload[y][x] >= 0.0
    {
      assert Moved(e, st, r, y, x);
      assert st.iceload[y][e.topo.w1[x]] >= 0.0;
    }
  }

  /** The squish of a step from a bedded state leaves the state on the bed. */
  lemma SquishedOnBed(e: Env, st: State, ys: seq<int>, xs: seq<int>)
    requires Fits(e, st) && InGrid(ys, xs, e.sim.ydim, e.sim.xdim) && StepSound(e) && Bedded(e, st)
    requires Squish(e, MoveIce(e, st), ys, xs, |ys|).Done?
    ensures OnBed(e, Squish(e, MoveIce(e, st), ys, xs, |ys|).value)
  {
    var m := MoveIce(e, st);
    MovedGrounded(e, st);
    SquishGrounded(e, m, ys, xs, |ys|);
    SquishKeepsRest(e, m, ys, xs, |ys|);
  }

  /** Advection, erosion and apply_dsurf leave no negative iceload: the
      entrainment takes at most what the iceload holds and erosion only adds
      to it. */
  lemma AdvectErodeApplyIceload(e: Env, st: State, draws: seq<seq<real>>)
    requires Fits(e, st) && IsGrid(draws, e.sim.ydim, e.sim.xdim) && ErosionSound(e.sim) && OnBed(e, st)
    ensures var r := ApplyDsurf(e, Erode(e, Advect(e, st, draws)));
      forall y, x :: 0 <= y < e.sim.ydim && 0 <= x < e.sim.xdim ==> r.iceload[y][x] >= 0.0
  {
    var a := Advect(e, st, draws);
    var r := ApplyDsurf(e, Erode(e, a));
    AdvectPendingFloor(e, st, draws);
    forall y, x | 0 <= y < e.sim.ydim && 0 <= x < e.sim.xdim
      ensures r.iceload[y][x] >= 0.0
    {
      var d := a.diceload[y][x];
      var qAd := Advection(st.basalPres[y][x], st.basalPres[y][e.topo.e1[x]], e.sim, draws[y][x]);
      var qEn := Entrainment(st.contact[y][x], st.basalPres[y][x], st.iceload[y][x], e.sim);
      AdvLimitIceload(qAd, qEn, st.surf[y][x], st.bsmt[y][x], st.iceload[y][x]);
      assert ErodeAt(e, a, y, x) == ErodeAt(e, st, y, x);
      assert r.iceload[y][x] == ErodeAt(e, st, y, x).iceload + d;
      ErodedIceload(e.sim, st.contact[y][x], st.surf[y][x], st.bsmt[y][x], st.basalPres[y][x], st.iceload[y][x], st.erodibility[y][x], d);
    }
  }

  /** The phases after the squish leave no negative iceload on a state on
      the bed. */
  lemma PhasesIceload(e: Env, s: State, draws: seq<seq<real>>)
    requires Fits(e, s) && IsGrid(draws, e.sim.ydim, e.sim.xdim) && ErosionSound(e.sim) && OnBed(e, s)
    ensures forall y, x :: 0 <= y < e.sim.ydim && 0 <= x < e.sim.xdim ==> Phases(e, s, draws).iceload[y][x] >= 0.0
  {
    var q := ApplyDsurf(e, Erode(e, Advect(e, s, draws)));
    AdvectErodeApplyIceload(e, s, draws);
    assert SurfBleed(e, q).iceload == q.iceload;
    IceloadBleedBalance(e, SurfBleed(e, q));
  }

  /** The phases after the squish leave no basement error on a state on
      the bed. */
  lemma PhasesNoBasementError(e: Env, s: State, draws: seq<seq<real>>)
    requires Fits(e, s) && IsGrid(draws, e.sim.ydim, e.sim.xdim) && ErosionSound(e.sim) && OnBed(e, s)
    ensures !HasBasementError(e, Phases(e, s, draws))
  {
    var q := ApplyDsurf(e, Erode(e, Advect(e, s, draws)));
    AdvectErodeApplyNearFloor(e, s, draws);
    SurfBleedBalance(e, q);
  }

  /** With a non-zero surface bleed the phases after the squish leave every
      cell on or above the basement. */
  lemma PhasesBleedFloor(e: Env, s: State, draws: seq<seq<real>>)
    requires Fits(e, s) && IsGrid(draws, e.sim.ydim, e.sim.xdim) && e.sim.surfBleed != 0.0
    ensures forall y, x :: 0 <= y < e.sim.ydim && 0 <= x < e.sim.xdim ==>
      Phases(e, s, draws).surf[y][x] >= Phases(e, s, draws).bsmt[y][x]
  {
    var q := ApplyDsurf(e, Erode(e, Advect(e, s, draws)));
    SurfBleedBalance(e, q);
  }

  /** A step from a bedded state that does not halt leaves no negative
      iceload. */
  lemma StepKeepsIceload(e: Env, st: State, ys: seq<int>, xs: seq<int>, draws: seq<seq<real>>)
    requires Fits(e, st) && InGrid(ys, xs, e.sim.ydim, e.sim.xdim) && IsGrid(draws, e.sim.ydim, e.sim.xdim)
    requires StepSound(e) && Bedded(e, st)
    ensures RunStep(e, st, ys, xs, draws).Done? ==>
      forall y, x :: 0 <= y < e.sim.ydim && 0 <= x < e.sim.xdim ==> RunStep(e, st, ys, xs, draws).value.iceload[y][x] >= 0.0
  {
    var sq := Squish(e, MoveIce(e, st), ys, xs, |ys|);
    if sq.Done? {
      SquishedOnBed(e, st, ys, xs);
      PhasesIceload(e, sq.value, draws);
    }
  }

  /** A step from a bedded state that does not halt leaves no cell that
      check_state reports below the basement. */
  lemma StepNoBasementError(e: Env, st: State, ys: seq<int>, xs: seq<int>, draws: seq<seq<real>>)
    requires Fits(e, st) && InGrid(ys, xs, e.sim.ydim, e.sim.xdim) && IsGrid(draws, e.sim.ydim, e.sim.xdim)
    requires StepSound(e) && Bedded(e, st)
    ensures RunStep(e, st, ys, xs, draws).Done? ==> !HasBasementError(e, RunStep(e, st, ys, xs, draws).value)
  {
    var sq := Squish(e, MoveIce(e, st), ys, xs, |ys|);
    if sq.Done? {
      SquishedOnBed(e, st, ys, xs);
      PhasesNoBasementError(e, sq.value, draws);
    }
  }

  /** With a non-zero surface bleed a step that does not halt leaves every
      cell on or above the basement, from any state. */
  lemma StepBleedFloor(e: Env, st: State, ys: seq<int>, xs: seq<int>, draws: seq<seq<real>>)
    requires Fits(e, st) && InGrid(ys, xs, e.sim.ydim, e.sim.xdim) && IsGrid(draws, e.sim.ydim, e.sim.xdim)
    requires e.sim.surfBleed != 0.0
    ensures RunStep(e, st, ys, xs, draws).Done? ==>
      forall y, x :: 0 <= y < e.sim.ydim && 0 <= x < e.sim.xdim ==>
        RunStep(e, st, ys, xs, draws).value.surf[y][x] >= RunStep(e, st, ys, xs, draws).value.bsmt[y][x]
  {
    var sq := Squish(e, MoveIce(e, st), ys, xs, |ys|);
    if sq.Done? {
      PhasesBleedFloor(e, sq.value, draws);
    }
  }
}
