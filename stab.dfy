/** The STAB model engine of stab.hpp: thirteen rasters, the polling engine
    and the log accumulators. Every timestep phase is a method over the
    rasters' arrays, proved to leave the engine in the state that the
    corresponding function of StabState computes from the state before it. */
module Stab {
  import opened Boundaries
  import opened Raster
  import opened Poll
  import opened StabRules
  import opened StabState

  /** A raster of the grid of sim with every cell no-data: how init builds
      each of its rasters. The boundary tables of all but surf are never
      read, so only surf's are kept in view. */
  method BlankRaster(sim: Sim, ghost taken: set<array2<real>>) returns (r: Raster)
    requires SimOk(sim)
    ensures fresh(r.ras) && r.ras !in taken && r.Shaped() && r.ydim == sim.ydim && r.xdim == sim.xdim
    ensures r.cellsize == sim.cellsize && r.nodataValue == NODATA_DEFAULT
    ensures r.Grid() == ConstGrid(sim.ydim, sim.xdim, NODATA_DEFAULT)
  {
    r := new Raster.Init(sim.ydim, sim.xdim, sim.yllCorner, sim.xllCorner, sim.cellsize, sim.boundariesNs, sim.boundariesEw);
  }

  /** A raster of the grid of sim whose cells are all no-data. */
  ghost predicate BlankOf(r: Raster, sim: Sim)
    reads r.ras
  {
    && r.Shaped() && r.ydim == sim.ydim && r.xdim == sim.xdim && r.cellsize == sim.cellsize
    && r.nodataValue == NODATA_DEFAULT && r.Grid() == ConstGrid(sim.ydim, sim.xdim, NODATA_DEFAULT)
  }

  /** init's thirteen rasters, each on an array of its own; surf keeps its
      neighbour tables in view. */
  method NewRasters(sim: Sim)
    returns (surf: Raster, bsmt: Raster, ice: Raster, nIce: Raster, basalDef: Raster, basalPres: Raster, zeroElev: Raster, contact: Raster, iceload: Raster, nIceload: Raster, dsurf: Raster, diceload: Raster, erodibility: Raster)
    requires SimOk(sim) && KnownMode(sim.boundariesNs) && KnownMode(sim.boundariesEw)
    ensures surf.Valid() && surf.Ready()
    ensures fresh(surf.ras) && BlankOf(surf, sim)
    ensures fresh(bsmt.ras) && BlankOf(bsmt, sim)
    ensures fresh(ice.ras) && BlankOf(ice, sim)
    ensures fresh(nIce.ras) && BlankOf(nIce, sim)
    ensures fresh(basalDef.ras) && BlankOf(basalDef, sim)
    ensures fresh(basalPres.ras) && BlankOf(basalPres, sim)
    ensures fresh(zeroElev.ras) && BlankOf(zeroElev, sim)
    ensures fresh(contact.ras) && BlankOf(contact, sim)
    ensures fresh(iceload.ras) && BlankOf(iceload, sim)
    ensures fresh(nIceload.ras) && BlankOf(nIceload, sim)
    ensures fresh(dsurf.ras) && BlankOf(dsurf, sim)
    ensures fresh(diceload.ras) && BlankOf(diceload, sim)
    ensures fresh(erodibility.ras) && BlankOf(erodibility, sim)
    ensures surf.ras != bsmt.ras && surf.ras != ice.ras && surf.ras != nIce.ras && surf.ras != basalDef.ras && surf.ras != basalPres.ras && surf.ras != zeroElev.ras && surf.ras != contact.ras && surf.ras != iceload.ras && surf.ras != nIceload.ras && surf.ras != dsurf.ras && surf.ras != diceload.ras && surf.ras != erodibility.ras
    ensures bsmt.ras != ice.ras && bsmt.ras != nIce.ras && bsmt.ras != basalDef.ras && bsmt.ras != basalPres.ras && bsmt.ras != zeroElev.ras && bsmt.ras != contact.ras && bsmt.ras != iceload.ras && bsmt.ras != nIceload.ras && bsmt.ras != dsurf.ras && bsmt.ras != diceload.ras && bsmt.ras != erodibility.ras
    ensures ice.ras != nIce.ras && ice.ras != basalDef.ras && ice.ras != basalPres.ras && ice.ras != zeroElev.ras && ice.ras != contact.ras && ice.ras != iceload.ras && ice.ras != nIceload.ras && ice.ras != dsurf.ras && ice.ras != diceload.ras && ice.ras != erodibility.ras
    ensures nIce.ras != basalDef.ras && nIce.ras != basalPres.ras && nIce.ras != zeroElev.ras && nIce.ras != contact.ras && nIce.ras != iceload.ras && nIce.ras != nIceload.ras && nIce.ras != dsurf.ras && nIce.ras != diceload.ras && nIce.ras != erodibility.ras
    ensures basalDef.ras != basalPres.ras && basalDef.ras != zeroElev.ras && basalDef.ras != contact.ras && basalDef.ras != iceload.ras && basalDef.ras != nIceload.ras && basalDef.ras != dsurf.ras && basalDef.ras != diceload.ras && basalDef.ras != erodibility.ras
    ensures basalPres.ras != zeroElev.ras && basalPres.ras != contact.ras && basalPres.ras != iceload.ras && basalPres.ras != nIceload.ras && basalPres.ras != dsurf.ras && basalPres.ras != diceload.ras && basalPres.ras != erodibility.ras
    ensures zeroElev.ras != contact.ras && zeroElev.ras != iceload.ras && zeroElev.ras != nIceload.ras && zeroElev.ras != dsurf.ras && zeroElev.ras != diceload.ras && zeroElev.ras != erodibility.ras
    ensures contact.ras != iceload.ras && contact.ras != nIceload.ras && contact.ras != dsurf.ras && contact.ras != diceload.ras && contact.ras != erodibility.ras
    ensures iceload.ras != nIceload.ras && iceload.ras != dsurf.ras && iceload.ras != diceload.ras && iceload.ras != erodibility.ras
    ensures nIceload.ras != dsurf.ras && nIceload.ras != diceload.ras && nIceload.ras != erodibility.ras
    ensures dsurf.ras != diceload.ras && dsurf.ras != erodibility.ras
    ensures diceload.ras != erodibility.ras
  {
    bsmt := BlankRaster(sim, {});
    ice := BlankRaster(sim, {bsmt.ras});
    nIce := BlankRaster(sim, {bsmt.ras, ice.ras});
    basalDef := BlankRaster(sim, {bsmt.ras, ice.ras, nIce.ras});
    basalPres := BlankRaster(sim, {bsmt.ras, ice.ras, nIce.ras, basalDef.ras});
    zeroElev := BlankRaster(sim, {bsmt.ras, ice.ras, nIce.ras, basalDef.ras, basalPres.ras});
    contact := BlankRaster(sim, {bsmt.ras, ice.ras, nIce.ras, basalDef.ras, basalPres.ras, zeroElev.ras});
    iceload := BlankRaster(sim, {bsmt.ras, ice.ras, nIce.ras, basalDef.ras, basalPres.ras, zeroElev.ras, contact.ras});
    nIceload := BlankRaster(sim, {bsmt.ras, ice.ras, nIce.ras, basalDef.ras, basalPres.ras, zeroElev.ras, contact.ras, iceload.ras});
    dsurf := BlankRaster(sim, {bsmt.ras, ice.ras, nIce.ras, basalDef.ras, basalPres.ras, zeroElev.ras, contact.ras, iceload.ras, nIceload.ras});
    diceload := BlankRaster(sim, {bsmt.ras, ice.ras, nIce.ras, basalDef.ras, basalPres.ras, zeroElev.ras, contact.ras, iceload.ras, nIceload.ras, dsurf.ras});
    erodibility := BlankRaster(sim, {bsmt.ras, ice.ras, nIce.ras, basalDef.ras, basalPres.ras, zeroElev.ras, contact.ras, iceload.ras, nIceload.ras, dsurf.ras, diceload.ras});
    surf := new Raster.Init(sim.ydim, sim.xdim, sim.yllCorner, sim.xllCorner, sim.cellsize, sim.boundariesNs, sim.boundariesEw);
  }

  /** The state of freshly built rasters: every cell no-data, a zeroed log. */
  function BlankState(sim: Sim): (st: State)
  {
    var nd := ConstGrid(sim.ydim, sim.xdim, NODATA_DEFAULT);
    State(nd, nd, nd, nd, nd, nd, nd, nd, nd, nd, nd, nd, nd, ZERO_LEDGER)
  }

  /** The state init leaves for the "flat" initialisation. */
  function FlatState(sim: Sim): (st: State)
  {
    var nd := ConstGrid(sim.ydim, sim.xdim, NODATA_DEFAULT);
    var s := ConstGrid(sim.ydim, sim.xdim, sim.flatInitSedfillElev);
    State(s, ConstGrid(sim.ydim, sim.xdim, sim.flatInitBasementElev), s, nd, nd, nd, nd,
          ConstGrid(sim.ydim, sim.xdim, 1.0), ConstGrid(sim.ydim, sim.xdim, sim.initIceload), nd, nd, nd,
          ConstGrid(sim.ydim, sim.xdim, 0.0), ZERO_LEDGER)
  }

  // ---------------------------------------------------------------------------
  // The engine.
  // ---------------------------------------------------------------------------

  class Stab {
    const sim: Sim

    const surf: Raster
    const bsmt: Raster
    const ice: Raster
    const nIce: Raster
    const basalDef: Raster
    const basalPres: Raster
    const zeroElev: Raster
    const contact: Raster
    const iceload: Raster
    const nIceload: Raster
    const dsurf: Raster
    const diceload: Raster
    const erodibility: Raster

    const p: Poll
    var sl: Ledger

    /** The global basal pressure and the fudge of the pressure test. */
    const cellAvg: real
    const fudge: real

    /** A raster of the engine's grid. */
    ghost predicate Fitted(r: Raster)
    {
      r.Shaped() && r.ydim == sim.ydim && r.xdim == sim.xdim && r.cellsize == sim.cellsize && r.nodataValue == NODATA_DEFAULT
    }

    /** The shape of the engine: usable parameters that passed init's
        stability check, thirteen rasters of the grid on thirteen different
        arrays, a polling engine of the grid, and the pressures init sets. */
    ghost predicate Valid()
    {
      && SimOk(sim) && StableAdvection(sim)
      && AllFitted()
      && surf.Valid() && surf.Ready() && p.Valid() && p.ydim == sim.ydim && p.xdim == sim.xdim
      && cellAvg == sim.globalBasalPres && fudge == FUDGE_SCALE * sim.globalBasalPres
      && Distinct()
    }

    /** Every raster has the engine's grid. */
    ghost predicate AllFitted()
    {
      && Fitted(surf) && Fitted(bsmt) && Fitted(ice) && Fitted(nIce) && Fitted(basalDef) && Fitted(basalPres) && Fitted(zeroElev)
      && Fitted(contact) && Fitted(iceload) && Fitted(nIceload) && Fitted(dsurf) && Fitted(diceload) && Fitted(erodibility)
    }

    /** The thirteen rasters live on thirteen different arrays. */
    ghost predicate Distinct()
    {
      && surf.ras != bsmt.ras && surf.ras != ice.ras && surf.ras != nIce.ras && surf.ras != basalDef.ras && surf.ras != basalPres.ras && surf.ras != zeroElev.ras && surf.ras != contact.ras && surf.ras != iceload.ras && surf.ras != nIceload.ras && surf.ras != dsurf.ras && surf.ras != diceload.ras && surf.ras != erodibility.ras
      && bsmt.ras != ice.ras && bsmt.ras != nIce.ras && bsmt.ras != basalDef.ras && bsmt.ras != basalPres.ras && bsmt.ras != zeroElev.ras && bsmt.ras != contact.ras && bsmt.ras != iceload.ras && bsmt.ras != nIceload.ras && bsmt.ras != dsurf.ras && bsmt.ras != diceload.ras && bsmt.ras != erodibility.ras
      && ice.ras != nIce.ras && ice.ras != basalDef.ras && ice.ras != basalPres.ras && ice.ras != zeroElev.ras && ice.ras != contact.ras && ice.ras != iceload.ras && ice.ras != nIceload.ras && ice.ras != dsurf.ras && ice.ras != diceload.ras && ice.ras != erodibility.ras
      && nIce.ras != basalDef.ras && nIce.ras != basalPres.ras && nIce.ras != zeroElev.ras && nIce.ras != contact.ras && nIce.ras != iceload.ras && nIce.ras != nIceload.ras && nIce.ras != dsurf.ras && nIce.ras != diceload.ras && nIce.ras != erodibility.ras
      && basalDef.ras != basalPres.ras && basalDef.ras != zeroElev.ras && basalDef.ras != contact.ras && basalDef.ras != iceload.ras && basalDef.ras != nIceload.ras && basalDef.ras != dsurf.ras && basalDef.ras != diceload.ras && basalDef.ras != erodibility.ras
      && basalPres.ras != zeroElev.ras && basalPres.ras != contact.ras && basalPres.ras != iceload.ras && basalPres.ras != nIceload.ras && basalPres.ras != dsurf.ras && basalPres.ras != diceload.ras && basalPres.ras != erodibility.ras
      && zeroElev.ras != contact.ras && zeroElev.ras != iceload.ras && zeroElev.ras != nIceload.ras && zeroElev.ras != dsurf.ras && zeroElev.ras != diceload.ras && zeroElev.ras != erodibility.ras
      && contact.ras != iceload.ras && contact.ras != nIceload.ras && contact.ras != dsurf.ras && contact.ras != diceload.ras && contact.ras != erodibility.ras
      && iceload.ras != nIceload.ras && iceload.ras != dsurf.ras && iceload.ras != diceload.ras && iceload.ras != erodibility.ras
      && nIceload.ras != dsurf.ras && nIceload.ras != diceload.ras && nIceload.ras != erodibility.ras
      && dsurf.ras != diceload.ras && dsurf.ras != erodibility.ras
      && diceload.ras != erodibility.ras
    }

    /** A valid engine whose poll holds a permutation of the cells. */
    ghost predicate Ready()
      reads p.vcoords
    {
      Valid() && p.Permuted()
    }

    /** What stays fixed during a run. Every phase reads its neighbour tables
        from surf.b: the thirteen rasters are built with the same arguments,
        so their tables are equal. */
    ghost function Environment(): (e: Env)
      requires Valid()
      ensures e.sim == sim && e.cellAvg == cellAvg && e.fudge == fudge
      ensures TopoOk(e.topo, sim.ydim, sim.xdim)
    {
      var b := surf.b;
      Env(sim, Topo(b.n1, b.s1, b.e1, b.w1, b.n1m, b.s1m, b.e1m, b.w1m), cellAvg, fudge)
    }

    /** The rasters and the log as a value. */
    ghost function Model(): (st: State)
      reads this, surf.ras, bsmt.ras, ice.ras, nIce.ras, basalDef.ras, basalPres.ras, zeroElev.ras,
            contact.ras, iceload.ras, nIceload.ras, dsurf.ras, diceload.ras, erodibility.ras
      requires Valid()
      ensures Shaped(st, sim.ydim, sim.xdim)
    {
      State(surf.Grid(), bsmt.Grid(), ice.Grid(), nIce.Grid(), basalDef.Grid(), basalPres.Grid(), zeroElev.Grid(),
            contact.Grid(), iceload.Grid(), nIceload.Grid(), dsurf.Grid(), diceload.Grid(), erodibility.Grid(), sl)
    }


    /** The part of init that does not depend on the initialisation type:
        thirteen rasters of the grid, all no-data; a polling engine with its
        first shuffle; the global basal pressure, its fudge and a zeroed log. */
    constructor Init(simIn: Sim, pollDraws: seq<nat>)
      requires SimOk(simIn) && StableAdvection(simIn)
      requires KnownMode(simIn.boundariesNs) && KnownMode(simIn.boundariesEw)
      requires |pollDraws| >= simIn.ydim * simIn.xdim
      ensures Ready() && sim == simIn
      ensures Model() == BlankState(simIn)
      ensures p.vcoords[..] == Shuffle(Iota(p.len), pollDraws)
      ensures EachCellOnce(sim.ydim, sim.xdim, p.ys[..], p.xs[..])
      ensures fresh(surf.ras) && fresh(bsmt.ras) && fresh(ice.ras) && fresh(nIce.ras) && fresh(basalDef.ras)
      ensures fresh(basalPres.ras) && fresh(zeroElev.ras) && fresh(contact.ras) && fresh(iceload.ras)
      ensures fresh(nIceload.ras) && fresh(dsurf.ras) && fresh(diceload.ras) && fresh(erodibility.ras)
    {
      var y, x := simIn.ydim, simIn.xdim;
      var r0, r1, r2, r3, r4, r5, r6, r7, r8, r9, r10, r11, r12 := NewRasters(simIn);
      sim := simIn;
      surf := r0; bsmt := r1; ice := r2; nIce := r3; basalDef := r4; basalPres := r5; zeroElev := r6; contact := r7; iceload := r8; nIceload := r9; dsurf := r10; diceload := r11; erodibility := r12;
      p := new Poll.Init(y, x, pollDraws);
      cellAvg := simIn.globalBasalPres;
      fudge := FUDGE_SCALE * simIn.globalBasalPres;
      sl := ZERO_LEDGER;
    }

    /** init: the advection check, the engine, and the initialisation type;
        status 10 is the exit(10) of a failed check. */
    static method Start(simIn: Sim, pollDraws: seq<nat>) returns (status: int, s: Stab?)
      requires SimOk(simIn) && KnownMode(simIn.boundariesNs) && KnownMode(simIn.boundariesEw)
      requires |pollDraws| >= simIn.ydim * simIn.xdim
      requires simIn.initType != "existing"
      ensures status == 0 || status == 10
      ensures status == 10 <==> !StableAdvection(simIn) || simIn.initType != "flat"
      ensures status == 0 ==> s != null && s.Ready() && s.sim == simIn && s.Model() == FlatState(simIn)
      ensures status == 0 ==> s.p.vcoords[..] == Shuffle(Iota(s.p.len), pollDraws)
      ensures status == 0 ==> EachCellOnce(simIn.ydim, simIn.xdim, s.p.ys[..], s.p.xs[..])
    {
      if !StableAdvection(simIn) {
        return 10, null;
      }
      if simIn.initType != "flat" {
        return 10, null;
      }
      s := new Stab.Init(simIn, pollDraws);
      s.InitFlat();
      status := 0;
    }

    /** init_flat: flat sediment over a flat basement, no local erodibility,
        the ice resting on the sediment, a uniform iceload, full contact. */
    method InitFlat()
      requires Valid()
      modifies surf.ras, bsmt.ras, erodibility.ras, ice.ras, iceload.ras, contact.ras
      ensures surf.Grid() == ConstGrid(sim.ydim, sim.xdim, sim.flatInitSedfillElev)
      ensures bsmt.Grid() == ConstGrid(sim.ydim, sim.xdim, sim.flatInitBasementElev)
      ensures erodibility.Grid() == ConstGrid(sim.ydim, sim.xdim, 0.0)
      ensures ice.Grid() == ConstGrid(sim.ydim, sim.xdim, sim.flatInitSedfillElev)
      ensures iceload.Grid() == ConstGrid(sim.ydim, sim.xdim, sim.initIceload)
      ensures contact.Grid() == ConstGrid(sim.ydim, sim.xdim, 1.0)
      ensures nIce.Grid() == old(nIce.Grid()) && basalDef.Grid() == old(basalDef.Grid())
      ensures basalPres.Grid() == old(basalPres.Grid()) && zeroElev.Grid() == old(zeroElev.Grid())
      ensures nIceload.Grid() == old(nIceload.Grid()) && dsurf.Grid() == old(dsurf.Grid())
      ensures diceload.Grid() == old(diceload.Grid())
    {
      surf.SetValue(sim.flatInitSedfillElev);
      bsmt.SetValue(sim.flatInitBasementElev);
      erodibility.SetValue(0.0);
      var status := ice.CopyRasterCells(surf);
      assert forall i :: 0 <= i < sim.ydim ==> ice.Grid()[i] == surf.Grid()[i];
      iceload.SetValue(sim.initIceload);
      contact.SetValue(1.0);
    }

    // -------------------------------------------------------------------------
    // calc_basal_pres, deposit_sq_sed, calc_sq_potential.
    // -------------------------------------------------------------------------

    /** calc_basal_pres: the pressure from the deformation rate; below the
        fudge the cell becomes a cavity with no pressure. */
    method CalcBasalPres(y: nat, x: nat)
      requires Valid() && y < sim.ydim && x < sim.xdim
      modifies basalPres.ras, contact.ras
      ensures Model() == PresAt(Environment(), old(Model()), y, x)
    {
      var pc := BasalPres(cellAvg, basalDef.ras[y, x], sim, fudge);
      basalPres.SetCell(y, x, pc.pres);
      contact.SetCell(y, x, pc.contact);
    }

    /** deposit_sq_sed: a positive deposit raises the target cell (closing a
        cavity it fills, pushing up the ice of a contact cell) and
        recalculates its pressure; a target off the grid bleeds it. */
    method DepositSqSed(y: int, x: int, q: real)
      requires Valid() && Target(y, x, sim.ydim, sim.xdim)
      modifies this, surf.ras, ice.ras, contact.ras, basalDef.ras, basalPres.ras
      ensures Model() == DepositSq(Environment(), old(Model()), y, x, q)
    {
      if q > 0.0 {
        if y != surf.b.toxicCoord && x != surf.b.toxicCoord {
          var d := DepositCell(surf.ras[y, x], ice.ras[y, x], contact.ras[y, x], basalDef.ras[y, x], q);
          StoreDeposit(y, x, d);
          CalcBasalPres(y, x);
        } else {
          sl := sl.(totalBleed := sl.totalBleed + q);
        }
      }
    }

    /** The four writes of a deposit into cell (y, x). */
    method StoreDeposit(y: nat, x: nat, d: DepositOut)
      requires Valid() && y < sim.ydim && x < sim.xdim
      modifies surf.ras, ice.ras, contact.ras, basalDef.ras
      ensures Model() == Store(Environment(), old(Model()), y, x, d)
    {
      surf.SetCell(y, x, d.surf);
      ice.SetCell(y, x, d.ice);
      contact.SetCell(y, x, d.contact);
      basalDef.SetCell(y, x, d.basalDef);
    }

    /** calc_sq_potential from cell (y, x) towards cell (yt, xt). */
    method CalcSqPotential(y: nat, x: nat, yt: nat, xt: nat) returns (q: real)
      requires Valid() && y < sim.ydim && x < sim.xdim && yt < sim.ydim && xt < sim.xdim
      ensures q == SqPot(Environment(), Model(), y, x, yt, xt)
    {
      q := SqPotential(basalPres.ras[y, x], basalPres.ras[yt, xt], basalPres.cellsize, sim,
                       contact.ras[yt, xt], basalDef.ras[y, x], basalDef.ras[yt, xt], ice.ras[yt, xt], surf.ras[yt, xt]);
    }

    /** The source of a squish gives up req: its surface and deformation
        drop, its ice follows the surface, and its pressure is recalculated. */
    method LowerSource(y: nat, x: nat, req: real)
      requires Valid() && y < sim.ydim && x < sim.xdim
      modifies surf.ras, ice.ras, contact.ras, basalDef.ras, basalPres.ras
      ensures Model() == Lowered(Environment(), old(Model()), y, x, req)
    {
      ghost var st := Model();
      var s := surf.ras[y, x] - req;
      var d := DepositOut(s, s, contact.ras[y, x], basalDef.ras[y, x] - req);
      assert Lowered(Environment(), st, y, x, req) == PresAt(Environment(), Store(Environment(), st, y, x, d), y, x);
      StoreDeposit(y, x, d);
      CalcBasalPres(y, x);
    }

    /** The four squish potentials of cell (y, x), towards its stop
        neighbours, limited by the basement and the ice. */
    method CalcSquishLimit(y: nat, x: nat) returns (lim: Outcome<Fluxes>)
      requires Valid() && y < sim.ydim && x < sim.xdim
      ensures lim == SquishLimit(SquishRequest(Environment(), Model(), y, x),
                                 Model().surf[y][x], Model().bsmt[y][x], Model().zeroElev[y][x])
      ensures lim.Halt? ==> lim.code == 10
    {
      var b := surf.b;
      var qn := CalcSqPotential(y, x, b.n1[y], x);
      var qs := CalcSqPotential(y, x, b.s1[y], x);
      var qe := CalcSqPotential(y, x, y, b.e1[x]);
      var qw := CalcSqPotential(y, x, y, b.w1[x]);
      lim := SquishLimit(Fluxes(qn, qs, qe, qw), surf.ras[y, x], bsmt.ras[y, x], zeroElev.ras[y, x]);
      SquishHaltCode(Fluxes(qn, qs, qe, qw), surf.ras[y, x], bsmt.ras[y, x], zeroElev.ras[y, x]);
    }

    /** A squish of g from cell (y, x): the source is lowered by the request
        and the four deposits follow. */
    method SquishFrom(y: nat, x: nat, g: Fluxes)
      requires Valid() && y < sim.ydim && x < sim.xdim
      modifies this, surf.ras, ice.ras, contact.ras, basalDef.ras, basalPres.ras
      ensures Model() == Spread(Environment(), Lowered(Environment(), old(Model()), y, x, Req(g)), y, x, g)
    {
      LowerSource(y, x, Req(g));
      SpreadSquish(y, x, g);
    }

    /** The four deposits of a squish from cell (y, x) at its move
        neighbours, and the logged squish. */
    method SpreadSquish(y: nat, x: nat, g: Fluxes)
      requires Valid() && y < sim.ydim && x < sim.xdim
      modifies this, surf.ras, ice.ras, contact.ras, basalDef.ras, basalPres.ras
      ensures Model() == Spread(Environment(), old(Model()), y, x, g)
    {
      var b := surf.b;
      DepositSqSed(b.n1m[y], x, g.n);
      DepositSqSed(b.s1m[y], x, g.s);
      DepositSqSed(y, b.e1m[x], g.e);
      DepositSqSed(y, b.w1m[x], g.w);
      sl := LogSquish(sl, g);
    }

    /** One visit of squish_sediment: a contact cell computes its four squish
        potentials, limits them by the basement and the ice, lowers itself
        and deposits them at its four move neighbours. A limit that fails
        stops with its exit status and changes nothing. */
    method SquishCell(y: nat, x: nat) returns (status: int)
      requires Valid() && y < sim.ydim && x < sim.xdim
      modifies this, surf.ras, ice.ras, contact.ras, basalDef.ras, basalPres.ras
      ensures status == 0 ==> SquishVisit(Environment(), old(Model()), y, x) == Done(Model())
      ensures status != 0 ==> SquishVisit(Environment(), old(Model()), y, x) == Halt(status) && Model() == old(Model())
    {
      status := 0;
      if contact.ras[y, x] == 1.0 {
        var lim := CalcSquishLimit(y, x);
        match lim
        case Halt(c) =>
          status := c;
        case Done(g) =>
          SquishFrom(y, x, g);
      }
    }

    /** squish_sediment: a new poll order, then the sweep in that order. */
    method SquishSediment(draws: seq<nat>) returns (status: int)
      requires Ready() && |draws| >= p.len
      modifies this, p.ys, p.xs, p.vcoords, surf.ras, ice.ras, contact.ras, basalDef.ras, basalPres.ras
      ensures Ready()
      ensures p.vcoords[..] == Shuffle(old(p.vcoords[..]), draws)
      ensures EachCellOnce(sim.ydim, sim.xdim, p.ys[..], p.xs[..])
      ensures status == 0 ==> Squish(Environment(), old(Model()), p.ys[..], p.xs[..], p.len) == Done(Model())
      ensures status != 0 ==> Squish(Environment(), old(Model()), p.ys[..], p.xs[..], p.len) == Halt(status)
    {
      ghost var s0 := Model();
      p.CalcNewSequence(draws);
      assert Model() == s0;
      assert InGrid(p.ys[..], p.xs[..], sim.ydim, sim.xdim);
      status := SquishSweep();
    }

    /** The first k visits of the sweep from s0 did not halt and left the
        engine in its current state. */
    ghost predicate SweptTo(s0: State, k: nat)
      reads this, p.ys, p.xs, surf.ras, bsmt.ras, ice.ras, nIce.ras, basalDef.ras, basalPres.ras, zeroElev.ras,
            contact.ras, iceload.ras, nIceload.ras, dsurf.ras, diceload.ras, erodibility.ras
    {
      && Valid() && Fits(Environment(), s0) && InGrid(p.ys[..], p.xs[..], sim.ydim, sim.xdim) && k <= p.len
      && Squish(Environment(), s0, p.ys[..], p.xs[..], k) == Done(Model())
    }

    /** The loop of squish_sediment: one visit per cell in poll order; a
        visit that halts ends the sweep with its exit status. */
    method SquishSweep() returns (status: int)
      requires Valid() && InGrid(p.ys[..], p.xs[..], sim.ydim, sim.xdim)
      modifies this, surf.ras, ice.ras, contact.ras, basalDef.ras, basalPres.ras
      ensures status == 0 ==> Squish(Environment(), old(Model()), p.ys[..], p.xs[..], p.len) == Done(Model())
      ensures status != 0 ==> Squish(Environment(), old(Model()), p.ys[..], p.xs[..], p.len) == Halt(status)
    {
      ghost var s0 := Model();
      status := 0;
      var i := 0;
      while i < p.len && status == 0
        invariant 0 <= i <= p.len
        invariant status == 0 ==> SweptTo(s0, i)
        invariant status != 0 ==> Squish(Environment(), s0, p.ys[..], p.xs[..], i) == Halt(status)
      {
        status := SquishNext(s0, i);
        i := i + 1;
      }
      if status != 0 {
        SquishHaltStays(Environment(), s0, p.ys[..], p.xs[..], i, p.len);
      }
    }

    /** Visit i of the sweep, after i visits that did not halt. */
    method SquishNext(ghost s0: State, i: nat) returns (status: int)
      requires SweptTo(s0, i) && i < p.len
      modifies this, surf.ras, ice.ras, contact.ras, basalDef.ras, basalPres.ras
      ensures status == 0 ==> SweptTo(s0, i + 1)
      ensures status != 0 ==> Squish(Environment(), s0, p.ys[..], p.xs[..], i + 1) == Halt(status)
    {
      status := SquishCell(p.ys[i], p.xs[i]);
    }

    // -------------------------------------------------------------------------
    // move_ice.
    // -------------------------------------------------------------------------

    /** move_ice: the first sweep computes every cell's pressure-free height,
        deformation, pressure, contact, new ice and new iceload from the ice
        before the phase; the second sweep then copies the new ice and
        iceload over the old. */
    method MoveIce()
      requires Valid()
      modifies zeroElev.ras, basalDef.ras, basalPres.ras, contact.ras, nIce.ras, nIceload.ras, ice.ras, iceload.ras
      ensures Model() == StabState.MoveIce(Environment(), old(Model()))
    {
      ghost var st0 := Model();
      ghost var mg := MoveOuts(Environment(), st0);
      MoveAll(st0, mg);
      CopyAll(Model());
      MoveIceBySweeps(Environment(), st0);
    }

    /** The first sweep of move_ice from st0 has reached cell (y, x). */
    ghost predicate MovedTo(st0: State, mg: seq<seq<MoveOut>>, y: nat, x: nat)
      reads this, surf.ras, bsmt.ras, ice.ras, nIce.ras, basalDef.ras, basalPres.ras, zeroElev.ras,
            contact.ras, iceload.ras, nIceload.ras, dsurf.ras, diceload.ras, erodibility.ras
    {
      && Valid() && Fits(Environment(), st0) && OutGrid(mg, sim.ydim, sim.xdim)
      && y <= sim.ydim && x <= sim.xdim && (y < sim.ydim || x == 0)
      && Model() == MoveSweep(Environment(), st0, mg, y, x)
    }

    /** The first sweep, row by row and cell by cell. */
    method MoveAll(ghost st0: State, ghost mg: seq<seq<MoveOut>>)
      requires MovedTo(st0, mg, 0, 0)
      requires forall i, j :: 0 <= i < sim.ydim && 0 <= j < sim.xdim ==> Planned(Environment(), st0, mg, i, j)
      modifies zeroElev.ras, basalDef.ras, basalPres.ras, contact.ras, nIce.ras, nIceload.ras
      ensures MovedTo(st0, mg, sim.ydim, 0) == true
    {
      var y, x := 0, 0;
      while y < sim.ydim
        invariant MovedTo(st0, mg, y, x) == true && x < sim.xdim
        decreases sim.ydim - y, sim.xdim - x
      {
        MoveCell(st0, mg, y, x);
        if x + 1 < sim.xdim {
          x := x + 1;
        } else {
          assert MoveSweep(Environment(), st0, mg, y + 1, 0) == MoveSweep(Environment(), st0, mg, y, sim.xdim);
          y, x := y + 1, 0;
        }
      }
    }

    /** One cell of the first sweep: the shifted ice from the cell and its
        west read neighbour, the pressure-free height, the deformation and
        pressure (calc_basal_pres), the ice of a cavity or a contact cell,
        and the shifted iceload. The sweep writes none of the rasters it
        reads, so the cell sees them as they were before the phase. */
    method MoveCell(ghost st0: State, ghost mg: seq<seq<MoveOut>>, y: nat, x: nat)
      requires MovedTo(st0, mg, y, x) == true && y < sim.ydim && x < sim.xdim && Planned(Environment(), st0, mg, y, x)
      modifies zeroElev.ras, basalDef.ras, basalPres.ras, contact.ras, nIce.ras, nIceload.ras
      ensures MovedTo(st0, mg, y, x + 1)
    {
      var w := surf.b.w1[x];
      var m := MoveIceCell(sim, cellAvg, fudge, ice.ras[y, w], ice.ras[y, x], surf.ras[y, x], iceload.ras[y, w], iceload.ras[y, x]);
      assert m == MoveAt(Environment(), st0, y, x);
      StoreMove(y, x, m);
    }

    /** The second sweep of move_ice from st1 has reached cell (y, x). */
    ghost predicate CopiedTo(st1: State, y: nat, x: nat)
      reads this, surf.ras, bsmt.ras, ice.ras, nIce.ras, basalDef.ras, basalPres.ras, zeroElev.ras,
            contact.ras, iceload.ras, nIceload.ras, dsurf.ras, diceload.ras, erodibility.ras
    {
      && Valid() && Fits(Environment(), st1) && y <= sim.ydim && x <= sim.xdim && (y < sim.ydim || x == 0)
      && Model() == CopySweep(Environment(), st1, y, x)
    }

    /** The second sweep, row by row and cell by cell. */
    method CopyAll(ghost st1: State)
      requires CopiedTo(st1, 0, 0)
      modifies ice.ras, iceload.ras
      ensures CopiedTo(st1, sim.ydim, 0) == true
    {
      var y, x := 0, 0;
      while y < sim.ydim
        invariant CopiedTo(st1, y, x) == true && x < sim.xdim
        decreases sim.ydim - y, sim.xdim - x
      {
        CopyCell(st1, y, x);
        if x + 1 < sim.xdim {
          x := x + 1;
        } else {
          assert CopySweep(Environment(), st1, y + 1, 0) == CopySweep(Environment(), st1, y, sim.xdim);
          y, x := y + 1, 0;
        }
      }
    }

    /** One cell of the second sweep. */
    method CopyCell(ghost st1: State, y: nat, x: nat)
      requires CopiedTo(st1, y, x) == true && y < sim.ydim && x < sim.xdim
      modifies ice.ras, iceload.ras
      ensures CopiedTo(st1, y, x + 1)
    {
      ice.SetCell(y, x, nIce.ras[y, x]);
      iceload.SetCell(y, x, nIceload.ras[y, x]);
    }

    /** The six writes of the first sweep into cell (y, x). */
    method StoreMove(y: nat, x: nat, m: MoveOut)
      requires Valid() && y < sim.ydim && x < sim.xdim
      modifies zeroElev.ras, basalDef.ras, basalPres.ras, contact.ras, nIce.ras, nIceload.ras
      ensures Model() == MoveStore(Environment(), old(Model()), y, x, m)
    {
      zeroElev.SetCell(y, x, m.zeroElev);
      basalDef.SetCell(y, x, m.basalDef);
      basalPres.SetCell(y, x, m.pc.pres);
      contact.SetCell(y, x, m.pc.contact);
      nIce.SetCell(y, x, m.nIce);
      nIceload.SetCell(y, x, m.nIceload);
    }

    // -------------------------------------------------------------------------
    // advect_entrainment.
    // -------------------------------------------------------------------------

    /** advect_entrainment: dsurf and diceload are reset, then every cell,
        row by row, sends its advection east and its entrainment into the
        iceload. draws[y][x] stands for the uniform draw of cell (y, x). */
    method AdvectEntrainment(draws: seq<seq<real>>)
      requires Valid() && IsGrid(draws, sim.ydim, sim.xdim)
      modifies this, dsurf.ras, diceload.ras
      ensures Model() == Advect(Environment(), old(Model()), draws)
      ensures p.ys[..] == old(p.ys[..]) && p.xs[..] == old(p.xs[..]) && p.vcoords[..] == old(p.vcoords[..])
    {
      ghost var st0 := Model();
      ghost var fl := AdvFluxes(Environment(), st0, draws);
      dsurf.SetValue(0.0);
      diceload.SetValue(0.0);
      AdvectedStart(Environment(), st0, fl);
      AdvectAll(st0, draws, fl);
      AdvectedDone(Environment(), st0, draws);
    }

    /** advect_entrainment's sweep from st0 has reached cell (y, x). */
    ghost predicate AdvectedTo(st0: State, fl: seq<seq<AdvFlux>>, y: nat, x: nat)
      reads this, surf.ras, bsmt.ras, ice.ras, nIce.ras, basalDef.ras, basalPres.ras, zeroElev.ras,
            contact.ras, iceload.ras, nIceload.ras, dsurf.ras, diceload.ras, erodibility.ras
    {
      && Valid() && Fits(Environment(), st0) && FluxGrid(fl, sim.ydim, sim.xdim)
      && y <= sim.ydim && x <= sim.xdim && (y < sim.ydim || x == 0)
      && Model() == Advected(Environment(), st0, fl, y, x)
    }

    /** advect_entrainment's sweep, row by row and cell by cell. */
    method AdvectAll(ghost st0: State, draws: seq<seq<real>>, ghost fl: seq<seq<AdvFlux>>)
      requires AdvectedTo(st0, fl, 0, 0) && IsGrid(draws, sim.ydim, sim.xdim)
      requires forall i, j :: 0 <= i < sim.ydim && 0 <= j < sim.xdim ==> FluxPlanned(Environment(), st0, draws, fl, i, j)
      modifies this, dsurf.ras, diceload.ras
      ensures AdvectedTo(st0, fl, sim.ydim, 0) == true
    {
      var y, x := 0, 0;
      while y < sim.ydim
        invariant AdvectedTo(st0, fl, y, x) == true && x < sim.xdim
        decreases sim.ydim - y, sim.xdim - x
      {
        AdvectOne(st0, draws, fl, y, x);
        if x + 1 < sim.xdim {
          x := x + 1;
        } else {
          assert Advected(Environment(), st0, fl, y + 1, 0) == Advected(Environment(), st0, fl, y, sim.xdim) by {
            AdvectedRow(Environment(), st0, fl, y);
          }
          y, x := y + 1, 0;
        }
      }
    }

    /** One cell of advect_entrainment: calc_advection and calc_entrainment,
        the basement check, then the pending changes and the log. The phase
        writes none of the rasters these read. */
    method AdvectOne(ghost st0: State, draws: seq<seq<real>>, ghost fl: seq<seq<AdvFlux>>, y: nat, x: nat)
      requires AdvectedTo(st0, fl, y, x) == true && IsGrid(draws, sim.ydim, sim.xdim) && y < sim.ydim && x < sim.xdim
      requires FluxPlanned(Environment(), st0, draws, fl, y, x)
      modifies this, dsurf.ras, diceload.ras
      ensures AdvectedTo(st0, fl, y, x + 1)
    {
      var qAd := Advection(basalPres.ras[y, x], basalPres.ras[y, surf.b.e1[x]], sim, draws[y][x]);
      var qEn := Entrainment(contact.ras[y, x], basalPres.ras[y, x], iceload.ras[y, x], sim);
      var f := AdvLimit(qAd, qEn, surf.ras[y, x], bsmt.ras[y, x]);
      assert f == fl[y][x];
      StoreAdvection(y, x, f);
      AdvectedStep(Environment(), st0, fl, y, x);
    }

    /** The writes of one cell of advect_entrainment: its own removal, its
        iceload gain, the advection into the east move neighbour or the
        bleed, and the log. */
    method StoreAdvection(y: nat, x: nat, f: AdvFlux)
      requires Valid() && y < sim.ydim && x < sim.xdim
      modifies this, dsurf.ras, diceload.ras
      ensures Model() == AdvPut(Environment(), old(Model()), y, x, f)
    {
      ghost var m := Model();
      var d, i := dsurf.ras[y, x] - f.qAd - f.qEn, diceload.ras[y, x] + f.qEn;
      StoreTake(y, x, d, i);
      ghost var m1 := Model();
      assert m1 == AdvTake(Environment(), m, y, x, f);
      StoreGive(y, x, f);
      AdvPutHalves(Environment(), m, y, x, f);
    }

    /** The cell's own removal and iceload gain. */
    method StoreTake(y: nat, x: nat, d: real, i: real)
      requires Valid() && y < sim.ydim && x < sim.xdim
      modifies dsurf.ras, diceload.ras
      ensures var m := old(Model());
        Model() == m.(dsurf := Put(m.dsurf, y, x, d), diceload := Put(m.diceload, y, x, i))
    {
      dsurf.SetCell(y, x, d);
      diceload.SetCell(y, x, i);
    }

    /** The advection into the east move neighbour or the bleed, and the log. */
    method StoreGive(y: nat, x: nat, f: AdvFlux)
      requires Valid() && y < sim.ydim && x < sim.xdim
      modifies this, dsurf.ras
      ensures Model() == AdvGive(Environment(), old(Model()), y, x, f)
    {
      var ex := surf.b.e1m[x];
      if ex != surf.b.toxicCoord {
        var d := dsurf.ras[y, ex] + f.qAd;
        dsurf.SetCell(y, ex, d);
        sl := LogAdvection(sl, f);
      } else {
        sl := LogAdvection(sl.(totalBleed := sl.totalBleed + f.qAd), f);
      }
    }

    // -------------------------------------------------------------------------
    // erode_basement.
    // -------------------------------------------------------------------------

    /** erode_basement: every exposed contact cell is abraded, row by row. */
    method ErodeBasement()
      requires Valid()
      modifies this, bsmt.ras, surf.ras, iceload.ras
      ensures Model() == Erode(Environment(), old(Model()))
      ensures p.ys[..] == old(p.ys[..]) && p.xs[..] == old(p.xs[..]) && p.vcoords[..] == old(p.vcoords[..])
    {
      ghost var st0 := Model();
      ErodeAll(st0);
      ErodeBySweep(Environment(), st0);
    }

    /** erode_basement's sweep from st0 has reached cell (y, x). */
    ghost predicate ErodedTo(st0: State, y: nat, x: nat)
      reads this, surf.ras, bsmt.ras, ice.ras, nIce.ras, basalDef.ras, basalPres.ras, zeroElev.ras,
            contact.ras, iceload.ras, nIceload.ras, dsurf.ras, diceload.ras, erodibility.ras
    {
      && Valid() && Fits(Environment(), st0) && y <= sim.ydim && x <= sim.xdim && (y < sim.ydim || x == 0)
      && Model() == ErodeSweep(Environment(), st0, y, x)
    }

    /** erode_basement's sweep, row by row and cell by cell. */
    method ErodeAll(ghost st0: State)
      requires ErodedTo(st0, 0, 0)
      modifies this, bsmt.ras, surf.ras, iceload.ras
      ensures ErodedTo(st0, sim.ydim, 0) == true
    {
      var y, x := 0, 0;
      while y < sim.ydim
        invariant ErodedTo(st0, y, x) == true && x < sim.xdim
        decreases sim.ydim - y, sim.xdim - x
      {
        ErodeOne(st0, y, x);
        if x + 1 < sim.xdim {
          x := x + 1;
        } else {
          ErodedRow(st0, y);
          y, x := y + 1, 0;
        }
      }
    }

    /** The sweep at the end of row y is the sweep at the start of row y + 1. */
    ghost method ErodedRow(st0: State, y: nat)
      requires ErodedTo(st0, y, sim.xdim) && y < sim.ydim
      ensures ErodedTo(st0, y + 1, 0)
    {
      assert ErodeSweep(Environment(), st0, y + 1, 0) == ErodeSweep(Environment(), st0, y, sim.xdim);
    }

    /** One cell of erode_basement. The cell's new values are written
        whether or not it is exposed; an unexposed cell gets its own values
        back. */
    method ErodeOne(ghost st0: State, y: nat, x: nat)
      requires ErodedTo(st0, y, x) == true && y < sim.ydim && x < sim.xdim
      modifies this, bsmt.ras, surf.ras, iceload.ras
      ensures ErodedTo(st0, y, x + 1)
    {
      var c := ErodeCell(sim, contact.ras[y, x], surf.ras[y, x], bsmt.ras[y, x], basalPres.ras[y, x],
                         iceload.ras[y, x], erodibility.ras[y, x]);
      StoreErosion(y, x, c);
    }

    /** The writes of erode_basement into cell (y, x). */
    method StoreErosion(y: nat, x: nat, c: Eroded)
      requires Valid() && y < sim.ydim && x < sim.xdim
      modifies this, bsmt.ras, surf.ras, iceload.ras
      ensures var s := old(Model());
        Model() == s.(bsmt := Put(s.bsmt, y, x, c.bsmt), surf := Put(s.surf, y, x, c.surf),
                      iceload := Put(s.iceload, y, x, c.iceload), sl := s.sl.(abrasion := s.sl.abrasion + c.abrasion))
    {
      bsmt.SetCell(y, x, c.bsmt);
      surf.SetCell(y, x, c.surf);
      iceload.SetCell(y, x, c.iceload);
      sl := sl.(abrasion := sl.abrasion + c.abrasion);
    }

    // -------------------------------------------------------------------------
    // apply_dsurf.
    // -------------------------------------------------------------------------

    /** apply_dsurf: the pending changes are added to the surface and the
        iceload, row by row. */
    method ApplyDsurf()
      requires Valid()
      modifies surf.ras, iceload.ras
      ensures Model() == StabState.ApplyDsurf(Environment(), old(Model()))
      ensures p.ys[..] == old(p.ys[..]) && p.xs[..] == old(p.xs[..]) && p.vcoords[..] == old(p.vcoords[..])
    {
      ghost var st0 := Model();
      ApplyAll(st0);
      ApplyBySweep(Environment(), st0);
    }

    /** apply_dsurf's sweep from st0 has reached cell (y, x). */
    ghost predicate AppliedTo(st0: State, y: nat, x: nat)
      reads this, surf.ras, bsmt.ras, ice.ras, nIce.ras, basalDef.ras, basalPres.ras, zeroElev.ras,
            contact.ras, iceload.ras, nIceload.ras, dsurf.ras, diceload.ras, erodibility.ras
    {
      && Valid() && Fits(Environment(), st0) && y <= sim.ydim && x <= sim.xdim && (y < sim.ydim || x == 0)
      && Model() == ApplySweep(Environment(), st0, y, x)
    }

    /** apply_dsurf's sweep, row by row and cell by cell. */
    method ApplyAll(ghost st0: State)
      requires AppliedTo(st0, 0, 0)
      modifies surf.ras, iceload.ras
      ensures AppliedTo(st0, sim.ydim, 0) == true
    {
      var y, x := 0, 0;
      while y < sim.ydim
        invariant AppliedTo(st0, y, x) == true && x < sim.xdim
        decreases sim.ydim - y, sim.xdim - x
      {
        ApplyOne(st0, y, x);
        if x + 1 < sim.xdim {
          x := x + 1;
        } else {
          assert ApplySweep(Environment(), st0, y + 1, 0) == ApplySweep(Environment(), st0, y, sim.xdim);
          y, x := y + 1, 0;
        }
      }
    }

    /** One cell of apply_dsurf. */
    method ApplyOne(ghost st0: State, y: nat, x: nat)
      requires AppliedTo(st0, y, x) == true && y < sim.ydim && x < sim.xdim
      modifies surf.ras, iceload.ras
      ensures AppliedTo(st0, y, x + 1)
    {
      var s, i := surf.ras[y, x] + dsurf.ras[y, x], iceload.ras[y, x] + diceload.ras[y, x];
      StoreApplied(y, x, s, i);
    }

    /** The writes of apply_dsurf into cell (y, x). */
    method StoreApplied(y: nat, x: nat, s: real, i: real)
      requires Valid() && y < sim.ydim && x < sim.xdim
      modifies surf.ras, iceload.ras
      ensures var m := old(Model());
        Model() == m.(surf := Put(m.surf, y, x, s), iceload := Put(m.iceload, y, x, i))
    {
      surf.SetCell(y, x, s);
      iceload.SetCell(y, x, i);
    }

    // -------------------------------------------------------------------------
    // surf_bleed and iceload_bleed.
    // -------------------------------------------------------------------------

    /** surf_bleed: with a non-zero rate, every cell loses its share of the
        bleed down to the basement, and the log adds what was taken. */
    method SurfBleed()
      requires Valid()
      modifies this, surf.ras
      ensures Model() == StabState.SurfBleed(Environment(), old(Model()))
      ensures p.ys[..] == old(p.ys[..]) && p.xs[..] == old(p.xs[..]) && p.vcoords[..] == old(p.vcoords[..])
    {
      if sim.surfBleed != 0.0 {
        ghost var st0 := Model();
        SurfBleedAll(st0);
        SurfBleedBySweep(Environment(), st0);
      }
    }

    /** surf_bleed's sweep from st0 has reached cell (y, x). */
    ghost predicate SurfBledTo(st0: State, y: nat, x: nat)
      reads this, surf.ras, bsmt.ras, ice.ras, nIce.ras, basalDef.ras, basalPres.ras, zeroElev.ras,
            contact.ras, iceload.ras, nIceload.ras, dsurf.ras, diceload.ras, erodibility.ras
    {
      && Valid() && Fits(Environment(), st0) && y <= sim.ydim && x <= sim.xdim && (y < sim.ydim || x == 0)
      && Model() == SurfBleedSweep(Environment(), st0, y, x)
    }

    /** surf_bleed's sweep, row by row and cell by cell. */
    method SurfBleedAll(ghost st0: State)
      requires SurfBledTo(st0, 0, 0)
      modifies this, surf.ras
      ensures SurfBledTo(st0, sim.ydim, 0) == true
    {
      var y, x := 0, 0;
      while y < sim.ydim
        invariant SurfBledTo(st0, y, x) == true && x < sim.xdim
        decreases sim.ydim - y, sim.xdim - x
      {
        SurfBleedOne(st0, y, x);
        if x + 1 < sim.xdim {
          x := x + 1;
        } else {
          assert SurfBleedSweep(Environment(), st0, y + 1, 0) == SurfBleedSweep(Environment(), st0, y, sim.xdim);
          y, x := y + 1, 0;
        }
      }
    }

    /** One cell of surf_bleed. */
    method SurfBleedOne(ghost st0: State, y: nat, x: nat)
      requires SurfBledTo(st0, y, x) == true && y < sim.ydim && x < sim.xdim
      modifies this, surf.ras
      ensures SurfBledTo(st0, y, x + 1)
    {
      var b := SurfBleedCell(surf.ras[y, x], bsmt.ras[y, x], SurfBleedAmount(sim));
      StoreSurfBleed(y, x, b);
    }

    /** The write of surf_bleed into cell (y, x) and its log entry. */
    method StoreSurfBleed(y: nat, x: nat, b: Bled)
      requires Valid() && y < sim.ydim && x < sim.xdim
      modifies this, surf.ras
      ensures var m := old(Model());
        Model() == m.(surf := Put(m.surf, y, x, b.value), sl := m.sl.(surfBleed := m.sl.surfBleed + b.applied))
    {
      surf.SetCell(y, x, b.value);
      sl := sl.(surfBleed := sl.surfBleed + b.applied);
    }

    /** iceload_bleed, non-diffusive: with a non-zero rate, every cell loses
        its share of the bleed down to zero, and the log adds what was
        taken. */
    method IceloadBleed()
      requires Valid()
      modifies this, iceload.ras
      ensures Model() == StabState.IceloadBleed(Environment(), old(Model()))
      ensures p.ys[..] == old(p.ys[..]) && p.xs[..] == old(p.xs[..]) && p.vcoords[..] == old(p.vcoords[..])
    {
      if sim.iceloadBleed != 0.0 {
        ghost var st0 := Model();
        IceloadBleedAll(st0);
        IceloadBleedBySweep(Environment(), st0);
      }
    }

    /** iceload_bleed's sweep from st0 has reached cell (y, x). */
    ghost predicate IceloadBledTo(st0: State, y: nat, x: nat)
      reads this, surf.ras, bsmt.ras, ice.ras, nIce.ras, basalDef.ras, basalPres.ras, zeroElev.ras,
            contact.ras, iceload.ras, nIceload.ras, dsurf.ras, diceload.ras, erodibility.ras
    {
      && Valid() && Fits(Environment(), st0) && y <= sim.ydim && x <= sim.xdim && (y < sim.ydim || x == 0)
      && Model() == IceloadBleedSweep(Environment(), st0, y, x)
    }

    /** iceload_bleed's sweep, row by row and cell by cell. */
    method IceloadBleedAll(ghost st0: State)
      requires IceloadBledTo(st0, 0, 0)
      modifies this, iceload.ras
      ensures IceloadBledTo(st0, sim.ydim, 0) == true
    {
      var y, x := 0, 0;
      while y < sim.ydim
        invariant IceloadBledTo(st0, y, x) == true && x < sim.xdim
        decreases sim.ydim - y, sim.xdim - x
      {
        IceloadBleedOne(st0, y, x);
        if x + 1 < sim.xdim {
          x := x + 1;
        } else {
          assert IceloadBleedSweep(Environment(), st0, y + 1, 0) == IceloadBleedSweep(Environment(), st0, y, sim.xdim);
          y, x := y + 1, 0;
        }
      }
    }

    /** One cell of iceload_bleed. */
    method IceloadBleedOne(ghost st0: State, y: nat, x: nat)
      requires IceloadBledTo(st0, y, x) == true && y < sim.ydim && x < sim.xdim
      modifies this, iceload.ras
      ensures IceloadBledTo(st0, y, x + 1)
    {
      var b := IceloadBleedCell(iceload.ras[y, x], IceloadBleedAmount(sim));
      StoreIceloadBleed(y, x, b);
    }

    /** The write of iceload_bleed into cell (y, x) and its log entry. */
    method StoreIceloadBleed(y: nat, x: nat, b: Bled)
      requires Valid() && y < sim.ydim && x < sim.xdim
      modifies this, iceload.ras
      ensures var m := old(Model());
        Model() == m.(iceload := Put(m.iceload, y, x, b.value), sl := m.sl.(iceloadBleed := m.sl.iceloadBleed + b.applied))
    {
      iceload.SetCell(y, x, b.value);
      sl := sl.(iceloadBleed := sl.iceloadBleed + b.applied);
    }
  
    // -------------------------------------------------------------------------
    // run and check_state.
    // -------------------------------------------------------------------------

    /** run: one timestep. The ice moves, the sediment is squished in a new
        poll order, then advected and entrained, the basement is eroded, the
        pending changes are applied and the two bleeds act. A squish that
        fails the ice-ceiling check ends the step with exit status 10 before
        the later phases. pollDraws and advDraws stand for the random draws of
        the shuffle and the advection. */
    method Run(pollDraws: seq<nat>, advDraws: seq<seq<real>>) returns (status: int)
      requires Ready() && |pollDraws| >= p.len && IsGrid(advDraws, sim.ydim, sim.xdim)
      modifies this, p.ys, p.xs, p.vcoords, surf.ras, bsmt.ras, ice.ras, nIce.ras, basalDef.ras, basalPres.ras,
               zeroElev.ras, contact.ras, iceload.ras, nIceload.ras, dsurf.ras, diceload.ras
      ensures Ready() == true
      ensures p.vcoords[..] == Shuffle(old(p.vcoords[..]), pollDraws)
      ensures EachCellOnce(sim.ydim, sim.xdim, p.ys[..], p.xs[..]) == true
      ensures status == 0 || status == 10
      ensures status == 0 ==> RunStep(Environment(), old(Model()), p.ys[..], p.xs[..], advDraws) == Done(Model())
      ensures status == 10 ==> RunStep(Environment(), old(Model()), p.ys[..], p.xs[..], advDraws) == Halt(10)
    {
      ghost var e, st0 := Environment(), Model();
      status := MoveAndSquish(pollDraws);
      ghost var ys, xs, vc := p.ys[..], p.xs[..], p.vcoords[..];
      if status == 0 {
        ghost var s2 := Model();
        RunPhases(advDraws);
        assert RunStep(e, st0, ys, xs, advDraws) == Done(Phases(e, s2, advDraws));
      }
      assert p.ys[..] == ys && p.xs[..] == xs && p.vcoords[..] == vc;
    }

    /** The first two phases of run: move_ice, then squish_sediment in a new
        poll order. */
    method MoveAndSquish(pollDraws: seq<nat>) returns (status: int)
      requires Ready() && |pollDraws| >= p.len
      modifies this, p.ys, p.xs, p.vcoords, surf.ras, ice.ras, nIce.ras, basalDef.ras, basalPres.ras,
               zeroElev.ras, contact.ras, iceload.ras, nIceload.ras
      ensures Ready()
      ensures p.vcoords[..] == Shuffle(old(p.vcoords[..]), pollDraws)
      ensures EachCellOnce(sim.ydim, sim.xdim, p.ys[..], p.xs[..]) && InGrid(p.ys[..], p.xs[..], sim.ydim, sim.xdim)
      ensures status == 0 || status == 10
      ensures var sq := Squish(Environment(), StabState.MoveIce(Environment(), old(Model())), p.ys[..], p.xs[..], p.len);
        (status == 0 ==> sq == Done(Model())) && (status != 0 ==> sq == Halt(status))
    {
      ghost var e := Environment();
      MoveIce();
      ghost var s1 := Model();
      status := SquishSediment(pollDraws);
      assert InGrid(p.ys[..], p.xs[..], sim.ydim, sim.xdim);
      if status != 0 {
        SquishHaltIsCeiling(e, s1, p.ys[..], p.xs[..], p.len);
      }
    }

    /** The phases of run after squish_sediment, in order. */
    method RunPhases(advDraws: seq<seq<real>>)
      requires Ready() && IsGrid(advDraws, sim.ydim, sim.xdim)
      modifies this, surf.ras, bsmt.ras, iceload.ras, dsurf.ras, diceload.ras
      ensures Ready()
      ensures Model() == Phases(Environment(), old(Model()), advDraws)
      ensures p.ys[..] == old(p.ys[..]) && p.xs[..] == old(p.xs[..]) && p.vcoords[..] == old(p.vcoords[..])
    {
      AdvectEntrainment(advDraws);
      ErodeBasement();
      ApplyDsurf();
      SurfBleed();
      IceloadBleed();
    }

    /** check_state's raster tests, one sweep each: the result is true
        exactly when some cell's ice lies more than ICE_TOL below its surface
        or some surface more than BSMT_TOL below its basement. */
    method CheckState() returns (error: bool)
      requires Valid()
      ensures error <==> HasIceError(Environment(), Model()) || HasBasementError(Environment(), Model())
    {
      error := false;
      for y := 0 to sim.ydim
        invariant error <==> exists i, j :: 0 <= i < y && 0 <= j < sim.xdim && IceError(ice.ras[i, j], surf.ras[i, j])
      {
        for x := 0 to sim.xdim
          invariant error <==> (exists i, j :: 0 <= i < y && 0 <= j < sim.xdim && IceError(ice.ras[i, j], surf.ras[i, j]))
                               || (exists j :: 0 <= j < x && IceError(ice.ras[y, j], surf.ras[y, j]))
        {
          if ice.ras[y, x] - surf.ras[y, x] < -ICE_TOL {
            error := true;
          }
        }
      }
      ghost var iceError := error;
      assert iceError <==> HasIceError(Environment(), Model());
      for y := 0 to sim.ydim
        invariant error <==> iceError || exists i, j :: 0 <= i < y && 0 <= j < sim.xdim && BasementError(surf.ras[i, j], bsmt.ras[i, j])
      {
        for x := 0 to sim.xdim
          invariant error <==> iceError || (exists i, j :: 0 <= i < y && 0 <= j < sim.xdim && BasementError(surf.ras[i, j], bsmt.ras[i, j]))
                               || (exists j :: 0 <= j < x && BasementError(surf.ras[y, j], bsmt.ras[y, j]))
        {
          if surf.ras[y, x] - bsmt.ras[y, x] < -BSMT_TOL {
            error := true;
          }
        }
      }
    }
}
}
