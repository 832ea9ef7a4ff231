/** The per-cell rules of the STAB engine (stab.hpp) as functions on values:
    the simulation parameters, the ice-movement weights, the basal pressure
    clamp, the squish, advection and entrainment fluxes with their limits,
    the bleeds and basement erosion. Doubles are modelled as exact reals. */
module StabRules {

  /** The parameters the engine reads from the simulation record. */
  datatype Sim = Sim(
    ydim: nat, xdim: nat, cellsize: real, yllCorner: real, xllCorner: real,
    lenTimestep: real, globalBasalPres: real, viscosity: real,
    qAdvectionGlobal: real, qAdvectionStochasticity: real, qSquishCoef: real, iceAdvection: real,
    entrainmentCavity: real, entrainmentZero: real, entrainmentSlp1: real,
    entrainmentVtx2: real, entrainmentSlp2: real,
    abrasionFromNSlope: real, abrasionFromNZero: real, abrasionFromIceload: real,
    globalBsmtErodibility: real, iceloadSurfReturnFraction: real,
    iceloadBleed: real, surfBleed: real,
    boundariesNs: string, boundariesEw: string,
    initType: string, flatInitBasementElev: real, flatInitSedfillElev: real, initIceload: real)

  /** Parameters for which every division of the engine is defined. */
  predicate SimOk(sim: Sim)
  {
    sim.ydim > 0 && sim.xdim > 0 && sim.cellsize > 0.0 && sim.lenTimestep > 0.0 && sim.viscosity > 0.0
  }

  /** The smallest difference basal_pres_fudge is a multiple of. */
  const FUDGE_SCALE: real := 0.000000000001
  /** A cavity filled to within this of the ice is closed (deposit_sq_sed). */
  const SNAP_TOL: real := 0.0000000001
  /** The basement counts as exposed within this of the surface (erode_basement). */
  const EXPOSED_TOL: real := 0.0000000001
  /** check_state's tolerances for ice below the surface and surface below the basement. */
  const ICE_TOL: real := 0.000000001
  const BSMT_TOL: real := 0.00000001

  /** init's stability check: the ice moves at most one cell per timestep. */
  predicate StableAdvection(sim: Sim)
  {
    !(sim.iceAdvection * sim.lenTimestep > sim.cellsize)
  }

  // ---------------------------------------------------------------------------
  // move_ice weights.
  // ---------------------------------------------------------------------------

  function WestWeight(sim: Sim): real
    requires sim.cellsize > 0.0
  {
    (sim.iceAdvection * sim.lenTimestep) / sim.cellsize
  }

  function TargetWeight(sim: Sim): real
    requires sim.cellsize > 0.0
  {
    1.0 - (sim.iceAdvection * sim.lenTimestep) / sim.cellsize
  }

  /** Once init's stability check has passed (and the ice does not move
      backwards), the two weights of move_ice are a convex pair. */
  lemma WeightsConvex(sim: Sim)
    requires sim.cellsize > 0.0 && StableAdvection(sim)
    requires sim.iceAdvection * sim.lenTimestep >= 0.0
    ensures 0.0 <= WestWeight(sim) <= 1.0 && 0.0 <= TargetWeight(sim) <= 1.0
    ensures WestWeight(sim) + TargetWeight(sim) == 1.0
  {
    var d := sim.iceAdvection * sim.lenTimestep;
    DivLeOne(d, sim.cellsize);
    assert WestWeight(sim) == d / sim.cellsize;
  }

  lemma DivLeOne(a: real, b: real)
    requires b > 0.0 && 0.0 <= a <= b
    ensures 0.0 <= a / b <= 1.0
  {
  }

  /** A convex combination lies between its two points. */
  lemma ConvexBetween(w: real, t: real, a: real, b: real)
    requires 0.0 <= w <= 1.0 && t == 1.0 - w
    ensures (a <= b ==> a <= w * b + t * a <= b) && (b <= a ==> b <= w * b + t * a <= a)
  {
    assert w * b + t * a == a + w * (b - a);
    if a <= b {
      FractionOf(w, b - a);
    } else {
      FractionOf(w, a - b);
      assert w * (b - a) == -(w * (a - b));
    }
  }

  lemma FractionOf(w: real, d: real)
    requires 0.0 <= w <= 1.0 && d >= 0.0
    ensures 0.0 <= w * d <= d
  {
    assert (1.0 - w) * d >= 0.0;
  }

  // ---------------------------------------------------------------------------
  // calc_basal_pres.
  // ---------------------------------------------------------------------------

  datatype PresContact = PresContact(pres: real, contact: real)

  /** The basal pressure before the clamp: the global pressure plus the
      deformation rate times the viscosity. */
  function RawBasalPres(cellAvg: real, def: real, sim: Sim): real
    requires sim.lenTimestep > 0.0
  {
    cellAvg + ((def / sim.lenTimestep) * sim.viscosity)
  }

  /** calc_basal_pres for one cell: a pressure that falls below the fudge
      opens a cavity (pressure 0, contact 0); otherwise the cell is in contact. */
  function BasalPres(cellAvg: real, def: real, sim: Sim, fudge: real): (r: PresContact)
    requires sim.lenTimestep > 0.0
    ensures r.contact == 0.0 || r.contact == 1.0
    ensures r.contact == 0.0 <==> RawBasalPres(cellAvg, def, sim) - fudge < 0.0
    ensures r.contact == 0.0 ==> r.pres == 0.0
    ensures r.contact == 1.0 ==> r.pres == RawBasalPres(cellAvg, def, sim) && r.pres >= fudge
    ensures fudge >= 0.0 ==> r.pres >= 0.0
  {
    var p := RawBasalPres(cellAvg, def, sim);
    if p - fudge < 0.0 then PresContact(0.0, 0.0) else PresContact(p, 1.0)
  }

  // ---------------------------------------------------------------------------
  // move_ice for one cell.
  // ---------------------------------------------------------------------------

  datatype MoveOut = MoveOut(zeroElev: real, basalDef: real, pc: PresContact, nIce: real, nIceload: real)

  /** The ice height after the upwind shift from the west neighbour. */
  function IceTemp(sim: Sim, iceW: real, iceT: real): real
    requires sim.cellsize > 0.0
  {
    (WestWeight(sim) * iceW) + (TargetWeight(sim) * iceT)
  }

  /** The elevation where the shifted ice's basal pressure vanishes. */
  function ZeroElev(sim: Sim, cellAvg: real, iceW: real, iceT: real): real
    requires SimOk(sim)
  {
    IceTemp(sim, iceW, iceT) - ((cellAvg * sim.lenTimestep) / sim.viscosity)
  }

  /** One cell of move_ice's first sweep, from the old ice, surface and iceload. */
  function MoveIceCell(sim: Sim, cellAvg: real, fudge: real, iceW: real, iceT: real, surfT: real,
                       loadW: real, loadT: real): MoveOut
    requires SimOk(sim)
  {
    var temp := IceTemp(sim, iceW, iceT);
    var ze := ZeroElev(sim, cellAvg, iceW, iceT);
    var pc := BasalPres(cellAvg, surfT - temp, sim, fudge);
    var load := (WestWeight(sim) * loadW) + (TargetWeight(sim) * loadT);
    if pc.contact == 0.0 then MoveOut(ze, ze - temp, pc, ze, load)
    else MoveOut(ze, surfT - temp, pc, surfT, load)
  }

  /** move_ice opens a cavity exactly where the bed lies below the height at
      which the shifted ice's basal pressure reaches the fudge; the new ice
      then sits at that height with zero pressure, and otherwise on the bed.
      Either way the deformation is the step from the shifted ice to the new
      ice base. */
  lemma MoveIceSettles(sim: Sim, cellAvg: real, fudge: real, iceW: real, iceT: real, surfT: real,
                       loadW: real, loadT: real)
    requires SimOk(sim)
    ensures var r := MoveIceCell(sim, cellAvg, fudge, iceW, iceT, surfT, loadW, loadT);
      && (r.pc.contact == 0.0 <==> surfT < ZeroElev(sim, cellAvg, iceW, iceT) + (fudge * sim.lenTimestep) / sim.viscosity)
      && (r.pc.contact == 0.0 ==> r.nIce == r.zeroElev && r.pc.pres == 0.0)
      && (r.pc.contact == 1.0 ==> r.nIce == surfT)
      && r.basalDef == r.nIce - IceTemp(sim, iceW, iceT)
  {
    var temp := IceTemp(sim, iceW, iceT);
    var dt, visc := sim.lenTimestep, sim.viscosity;
    var def := surfT - temp;
    CavityThreshold(cellAvg, def, dt, visc, fudge);
    assert ZeroElev(sim, cellAvg, iceW, iceT) == temp - (cellAvg * dt) / visc;
  }

  /** The clamp condition of calc_basal_pres, solved for the deformation. */
  lemma CavityThreshold(cellAvg: real, def: real, dt: real, visc: real, fudge: real)
    requires dt > 0.0 && visc > 0.0
    ensures cellAvg + ((def / dt) * visc) - fudge < 0.0 <==> def < (fudge * dt) / visc - (cellAvg * dt) / visc
  {
    var k := visc / dt;
    assert (def / dt) * visc == def * k;
    assert (fudge * dt) / visc - (cellAvg * dt) / visc == (fudge - cellAvg) / k;
    assert k > 0.0;
    assert def * k < fudge - cellAvg <==> def < (fudge - cellAvg) / k;
  }

  /** move_ice's new iceload is a convex blend of the old iceload of the cell
      and of its west neighbour. */
  lemma MoveIceloadBlend(sim: Sim, cellAvg: real, fudge: real, iceW: real, iceT: real, surfT: real,
                         loadW: real, loadT: real)
    requires SimOk(sim) && StableAdvection(sim) && sim.iceAdvection * sim.lenTimestep >= 0.0
    ensures var r := MoveIceCell(sim, cellAvg, fudge, iceW, iceT, surfT, loadW, loadT);
      && (loadT <= loadW ==> loadT <= r.nIceload <= loadW)
      && (loadW <= loadT ==> loadW <= r.nIceload <= loadT)
  {
    WeightsConvex(sim);
    ConvexBetween(WestWeight(sim), TargetWeight(sim), loadT, loadW);
  }

  // ---------------------------------------------------------------------------
  // calc_sq_potential and the limits of squish_sediment.
  // ---------------------------------------------------------------------------

  /** The squish cap towards a neighbour: pressure equalisation for a contact
      neighbour, the cavity's room for a cavity. */
  function SqCap(contactN: real, defT: real, defN: real, iceN: real, surfN: real): real
  {
    if contactN == 1.0 then 0.125 * (defT - defN) else iceN - surfN
  }

  /** calc_sq_potential: the flux down the pressure gradient, limited by the cap. */
  function SqPotential(presT: real, presN: real, cellsize: real, sim: Sim,
                       contactN: real, defT: real, defN: real, iceN: real, surfN: real): (q: real)
    requires cellsize != 0.0
    ensures (presT - presN) / cellsize <= 0.0 ==> q == 0.0
    ensures (presT - presN) / cellsize > 0.0 ==>
      && q <= SqCap(contactN, defT, defN, iceN, surfN)
      && q <= ((presT - presN) / cellsize) * sim.lenTimestep * sim.qSquishCoef
      && (q == SqCap(contactN, defT, defN, iceN, surfN) || q == ((presT - presN) / cellsize) * sim.lenTimestep * sim.qSquishCoef)
  {
    var dfdx := (presT - presN) / cellsize;
    if dfdx > 0.0 then
      var q0 := dfdx * sim.lenTimestep * sim.qSquishCoef;
      var cap := SqCap(contactN, defT, defN, iceN, surfN);
      if q0 > cap then cap else q0
    else 0.0
  }

  /** Squish towards a cavity never fills it beyond the ice. */
  lemma SqPotentialFitsCavity(presT: real, presN: real, cellsize: real, sim: Sim,
                              contactN: real, defT: real, defN: real, iceN: real, surfN: real)
    requires cellsize != 0.0 && contactN != 1.0 && surfN <= iceN
    ensures surfN + SqPotential(presT, presN, cellsize, sim, contactN, defT, defN, iceN, surfN) <= iceN
  {
  }

  /** The four squish fluxes of one cell (to the north, south, east, west). */
  datatype Fluxes = Fluxes(n: real, s: real, e: real, w: real)

  function Req(f: Fluxes): real
  {
    f.n + f.s + f.e + f.w
  }

  function Scale(f: Fluxes, k: real): (g: Fluxes)
    ensures Req(g) == k * Req(f)
  {
    Fluxes(f.n * k, f.s * k, f.e * k, f.w * k)
  }

  /** The basement check of squish_sediment: a request that would dig below the
      basement is scaled down to the available sediment. */
  function BasementLimit(f: Fluxes, surf: real, bsmt: real): Fluxes
  {
    if (surf - Req(f)) < bsmt && Req(f) != 0.0 then Scale(f, (surf - bsmt) / Req(f)) else f
  }

  /** The ice-ceiling fraction: a negative fraction is sign-flipped. */
  function CeilingFraction(req: real, surf: real, zeroElev: real): (k: real)
    requires req != 0.0
    ensures k >= 0.0
  {
    var k0 := (surf - zeroElev) / req;
    if k0 < 0.0 then k0 * -1.0 else k0
  }

  datatype Outcome<T> = Done(value: T) | Halt(code: int)

  /** The ice-ceiling check of squish_sediment: a request that would lower the
      surface below the ice's zero-pressure elevation is scaled down; a
      fraction above one halts the program with exit code 10. */
  function CeilingLimit(f: Fluxes, surf: real, zeroElev: real): Outcome<Fluxes>
  {
    if (surf - Req(f)) < zeroElev && Req(f) != 0.0 then
      var k := CeilingFraction(Req(f), surf, zeroElev);
      if k > 1.0 then Halt(10) else Done(Scale(f, k))
    else Done(f)
  }

  /** Both limits, in the source's order. */
  function SquishLimit(f: Fluxes, surf: real, bsmt: real, zeroElev: real): Outcome<Fluxes>
  {
    CeilingLimit(BasementLimit(f, surf, bsmt), surf, zeroElev)
  }

  /** The limits stop a run only with the ice-ceiling exit status 10. */
  lemma SquishHaltCode(f: Fluxes, surf: real, bsmt: real, zeroElev: real)
    ensures SquishLimit(f, surf, bsmt, zeroElev).Halt? ==> SquishLimit(f, surf, bsmt, zeroElev).code == 10
  {
  }

  /** Where the basement check fires the cell gives exactly its available
      sediment, and in every case a cell on or above the basement stays there. */
  lemma BasementLimitFloor(f: Fluxes, surf: real, bsmt: real)
    ensures (surf - Req(f)) < bsmt && Req(f) != 0.0 ==> Req(BasementLimit(f, surf, bsmt)) == surf - bsmt
    ensures surf >= bsmt ==> surf - Req(BasementLimit(f, surf, bsmt)) >= bsmt
  {
    if (surf - Req(f)) < bsmt && Req(f) != 0.0 {
      QuotientTimes(surf - bsmt, Req(f));
    }
  }

  lemma QuotientTimes(a: real, b: real)
    requires b != 0.0
    ensures (a / b) * b == a
  {
  }

  /** The ceiling check only ever shrinks a request by a fraction in [0, 1],
      halts exactly when that fraction exceeds one, and keeps a cell that is
      on or above its zero-pressure elevation there. */
  lemma CeilingLimitShrinks(f: Fluxes, surf: real, zeroElev: real)
    ensures CeilingLimit(f, surf, zeroElev).Halt? <==>
      ((surf - Req(f)) < zeroElev && Req(f) != 0.0 && CeilingFraction(Req(f), surf, zeroElev) > 1.0)
    ensures CeilingLimit(f, surf, zeroElev).Done? ==>
      exists k: real :: 0.0 <= k <= 1.0 && CeilingLimit(f, surf, zeroElev).value == Scale(f, k)
    ensures surf >= zeroElev ==>
      CeilingLimit(f, surf, zeroElev).Done? && surf - Req(CeilingLimit(f, surf, zeroElev).value) >= zeroElev
  {
    if (surf - Req(f)) < zeroElev && Req(f) != 0.0 {
      var k := CeilingFraction(Req(f), surf, zeroElev);
      if k <= 1.0 {
        assert CeilingLimit(f, surf, zeroElev).value == Scale(f, k);
      }
      if surf >= zeroElev {
        assert Req(f) > 0.0;
        assert k == (surf - zeroElev) / Req(f);
        assert k < 1.0 by { DivLeOne(surf - zeroElev, Req(f)); }
        QuotientTimes(surf - zeroElev, Req(f));
      }
    } else {
      assert f == Scale(f, 1.0);
    }
  }

  /** A squish source on or above the basement stays on or above it after
      lowering by the limited request. */
  lemma SquishKeepsBasement(f: Fluxes, surf: real, bsmt: real, zeroElev: real)
    requires surf >= bsmt && SquishLimit(f, surf, bsmt, zeroElev).Done?
    ensures surf - Req(SquishLimit(f, surf, bsmt, zeroElev).value) >= bsmt
  {
    var g := BasementLimit(f, surf, bsmt);
    BasementLimitFloor(f, surf, bsmt);
    if (surf - Req(g)) < zeroElev && Req(g) != 0.0 {
      var k := CeilingFraction(Req(g), surf, zeroElev);
      assert SquishLimit(f, surf, bsmt, zeroElev).value == Scale(g, k);
      ShrunkRemoval(Req(g), k, surf, bsmt);
    }
  }

  lemma ShrunkRemoval(req: real, k: real, surf: real, bsmt: real)
    requires surf >= bsmt && surf - req >= bsmt && 0.0 <= k <= 1.0
    ensures surf - k * req >= bsmt
  {
    if req >= 0.0 {
      assert k * req <= req;
    } else {
      assert k * req <= 0.0;
    }
  }

  // ---------------------------------------------------------------------------
  // calc_advection, calc_entrainment and the limit of advect_entrainment.
  // ---------------------------------------------------------------------------

  /** calc_advection: flux proportional to the mean basal pressure of the cell
      and its east read-neighbour, perturbed by the draw and never negative. */
  function Advection(presT: real, presE: real, sim: Sim, draw: real): (q: real)
    requires sim.cellsize > 0.0
    ensures q >= 0.0
    ensures (presT + presE) / 2.0 <= 0.0 ==> q == 0.0
  {
    var rep := (presT + presE) / 2.0;
    if rep > 0.0 then
      var q0 := (rep * sim.qAdvectionGlobal * sim.lenTimestep) / sim.cellsize;
      var q1 := q0 + ((draw - 0.5) * q0 * sim.qAdvectionStochasticity);
      if q1 < 0.0 then 0.0 else q1
    else 0.0
  }

  /** The entrainment rate before the timestep and iceload limits: a constant
      in a cavity, piecewise linear in the basal pressure under contact. */
  function EntrainmentRate(contactT: real, presT: real, sim: Sim): real
  {
    if contactT == 0.0 then sim.entrainmentCavity
    else if presT < sim.entrainmentVtx2 then (presT * sim.entrainmentSlp1) + sim.entrainmentZero
    else ((presT - sim.entrainmentVtx2) * sim.entrainmentSlp2) + (sim.entrainmentVtx2 * sim.entrainmentSlp1) + sim.entrainmentZero
  }

  /** Under contact the rate is continuous at the vertex: it is the vertex
      value plus the slope of the side times the distance from the vertex. */
  lemma EntrainmentThroughVertex(contactT: real, presT: real, sim: Sim)
    requires contactT != 0.0
    ensures EntrainmentRate(contactT, presT, sim) - EntrainmentRate(contactT, sim.entrainmentVtx2, sim)
      == (presT - sim.entrainmentVtx2) * (if presT < sim.entrainmentVtx2 then sim.entrainmentSlp1 else sim.entrainmentSlp2)
  {
    if presT < sim.entrainmentVtx2 {
      assert (presT * sim.entrainmentSlp1) - (sim.entrainmentVtx2 * sim.entrainmentSlp1)
          == (presT - sim.entrainmentVtx2) * sim.entrainmentSlp1;
    }
  }

  /** calc_entrainment: the rate over one timestep, never taking more than the
      iceload holds. */
  function Entrainment(contactT: real, presT: real, iceloadT: real, sim: Sim): (r: real)
    ensures iceloadT + r >= 0.0
    ensures iceloadT + EntrainmentRate(contactT, presT, sim) * sim.lenTimestep >= 0.0 ==>
      r == EntrainmentRate(contactT, presT, sim) * sim.lenTimestep
    ensures iceloadT + EntrainmentRate(contactT, presT, sim) * sim.lenTimestep < 0.0 ==> r == -iceloadT
  {
    var en := EntrainmentRate(contactT, presT, sim) * sim.lenTimestep;
    if iceloadT + en < 0.0 then -1.0 * iceloadT else en
  }

  datatype AdvFlux = AdvFlux(qAd: real, qEn: real)

  /** The basement check of advect_entrainment: when entraining both fluxes
      are scaled to the available sediment; when distraining only the
      advection is cut by the overdig. */
  function AdvLimit(qAd: real, qEn: real, surf: real, bsmt: real): AdvFlux
  {
    var req := qAd + qEn;
    if (surf - req) < bsmt && req != 0.0 then
      var av := surf - bsmt;
      if qEn > 0.0 then AdvFlux((av / req) * qAd, (av / req) * qEn)
      else AdvFlux(qAd - (req - av), qEn)
    else AdvFlux(qAd, qEn)
  }

  /** Where the check fires the cell's own removal equals its available
      sediment; a cell on or above the basement is never dug below it; a
      distrainment is never changed. */
  lemma AdvLimitFloor(qAd: real, qEn: real, surf: real, bsmt: real)
    ensures var r := AdvLimit(qAd, qEn, surf, bsmt);
      && ((surf - (qAd + qEn)) < bsmt && qAd + qEn != 0.0 ==> r.qAd + r.qEn == surf - bsmt)
      && (surf >= bsmt ==> surf - (r.qAd + r.qEn) >= bsmt)
      && (qEn <= 0.0 ==> r.qEn == qEn)
  {
    var req := qAd + qEn;
    if (surf - req) < bsmt && req != 0.0 && qEn > 0.0 {
      var k := (surf - bsmt) / req;
      assert k * qAd + k * qEn == k * req;
      QuotientTimes(surf - bsmt, req);
    }
  }

  /** The basement check never makes an entrainment take more than the
      iceload holds: a scaled entrainment keeps its sign when the cell is on
      or above the basement, and a distrainment is left as it was. */
  lemma AdvLimitIceload(qAd: real, qEn: real, surf: real, bsmt: real, iceload: real)
    requires qAd >= 0.0 && iceload >= 0.0 && iceload + qEn >= 0.0 && surf >= bsmt
    ensures iceload + AdvLimit(qAd, qEn, surf, bsmt).qEn >= 0.0
  {
    var req := qAd + qEn;
    if (surf - req) < bsmt && req != 0.0 && qEn > 0.0 {
      var k := (surf - bsmt) / req;
      assert k >= 0.0;
      assert k * qEn >= 0.0;
    }
  }

  // ---------------------------------------------------------------------------
  // deposit_sq_sed for a cell inside the grid.
  // ---------------------------------------------------------------------------

  datatype DepositOut = DepositOut(surf: real, ice: real, contact: real, basalDef: real)

  /** The cell after depositing q > 0: a cavity filled to within SNAP_TOL of
      the ice closes (surface snaps to the ice); a contact cell pushes the ice
      up with the surface and gains the deformation. */
  function DepositCell(surf: real, ice: real, contact: real, basalDef: real, q: real): DepositOut
  {
    var s := surf + q;
    if contact == 0.0 then
      if (s + SNAP_TOL) > ice then DepositOut(ice, ice, 1.0, basalDef)
      else DepositOut(s, ice, 0.0, basalDef)
    else DepositOut(s, s, contact, basalDef + q)
  }

  /** After a deposit the surface is never above the ice; it rose by q except
      where a cavity closed, in which case it stands within SNAP_TOL of
      surf + q. */
  lemma DepositBelowIce(surf: real, ice: real, contact: real, basalDef: real, q: real)
    requires q > 0.0
    ensures var r := DepositCell(surf, ice, contact, basalDef, q);
      && r.surf <= r.ice
      && (r.surf == surf + q || (contact == 0.0 && r.surf == ice && ice - (surf + q) < SNAP_TOL))
      && (contact != 0.0 ==> r.ice == surf + q && r.basalDef == basalDef + q)
      && (contact == 0.0 ==> r.ice == ice && r.basalDef == basalDef)
  {
  }

  // ---------------------------------------------------------------------------
  // Bleeds and basement erosion for one cell.
  // ---------------------------------------------------------------------------

  datatype Bled = Bled(value: real, applied: real)

  /** What surf_bleed and iceload_bleed take from each cell in one
      timestep. */
  function SurfBleedAmount(sim: Sim): real
  {
    sim.surfBleed * sim.lenTimestep
  }

  function IceloadBleedAmount(sim: Sim): real
  {
    sim.iceloadBleed * sim.lenTimestep
  }

  /** surf_bleed for one cell: remove `amount` but not below the basement. */
  function SurfBleedCell(surf: real, bsmt: real, amount: real): (r: Bled)
    ensures r.value >= bsmt
    ensures r.value + r.applied == surf
    ensures surf - amount >= bsmt ==> r.applied == amount
    ensures surf - amount < bsmt ==> r.value == bsmt
  {
    if surf - amount < bsmt then Bled(bsmt, surf - bsmt) else Bled(surf - amount, amount)
  }

  /** iceload_bleed for one cell (non-diffusive): remove `amount` but never
      leave a negative iceload. */
  function IceloadBleedCell(iceload: real, amount: real): (r: Bled)
    ensures r.value >= 0.0
    ensures r.value + r.applied == iceload
    ensures iceload - amount >= 0.0 ==> r.applied == amount
    ensures iceload - amount < 0.0 ==> r.value == 0.0
  {
    if iceload - amount < 0.0 then Bled(0.0, iceload) else Bled(iceload - amount, amount)
  }

  datatype Eroded = Eroded(bsmt: real, surf: real, iceload: real, abrasion: real)

  /** Whether erode_basement acts on a cell: in contact, basement exposed. */
  predicate Exposed(contact: real, surf: real, bsmt: real)
  {
    contact == 1.0 && surf - bsmt < EXPOSED_TOL && surf - bsmt > -EXPOSED_TOL
  }

  /** The abrasion of an exposed cell: from the basal pressure and from the
      iceload, times the erodibility. */
  function Abrasion(sim: Sim, pres: real, iceload: real, erodibility: real): real
  {
    var nAbrasion := sim.lenTimestep * (sim.abrasionFromNZero + (pres * sim.abrasionFromNSlope));
    var iceloadAbrasion := sim.lenTimestep * iceload * sim.abrasionFromIceload;
    (nAbrasion + iceloadAbrasion) * (sim.globalBsmtErodibility + erodibility)
  }

  /** Erosion parameters under which abrasion never deposits negative
      sediment: non-negative rates and erodibility, and a return fraction
      between 0 and 1. */
  predicate ErosionSound(sim: Sim)
  {
    && sim.lenTimestep >= 0.0 && sim.abrasionFromNZero >= 0.0 && sim.abrasionFromNSlope >= 0.0
    && sim.abrasionFromIceload >= 0.0 && sim.globalBsmtErodibility >= 0.0
    && 0.0 <= sim.iceloadSurfReturnFraction <= 1.0
  }

  /** With sound parameters, a non-negative pressure, iceload and
      erodibility give a non-negative abrasion. */
  lemma AbrasionNonNegative(sim: Sim, pres: real, iceload: real, erodibility: real)
    requires ErosionSound(sim) && pres >= 0.0 && iceload >= 0.0 && erodibility >= 0.0
    ensures Abrasion(sim, pres, iceload, erodibility) >= 0.0
  {
    var nAbrasion := sim.lenTimestep * (sim.abrasionFromNZero + (pres * sim.abrasionFromNSlope));
    var iceloadAbrasion := sim.lenTimestep * iceload * sim.abrasionFromIceload;
    assert pres * sim.abrasionFromNSlope >= 0.0;
    assert nAbrasion >= 0.0;
    assert iceload * sim.abrasionFromIceload >= 0.0;
    assert iceloadAbrasion >= 0.0;
  }

  /** erode_basement for one cell. */
  function ErodeCell(sim: Sim, contact: real, surf: real, bsmt: real, pres: real, iceload: real,
                     erodibility: real): Eroded
  {
    if Exposed(contact, surf, bsmt) then
      var a := Abrasion(sim, pres, iceload, erodibility);
      var b := bsmt - a;
      Eroded(b, b + ((1.0 - sim.iceloadSurfReturnFraction) * a), iceload + (sim.iceloadSurfReturnFraction * a), a)
    else Eroded(bsmt, surf, iceload, 0.0)
  }

  /** Erosion lowers an exposed basement by the abrasion and returns the
      fraction f of it to the iceload and 1 - f to the sediment above the new
      basement; other cells are unchanged and log nothing. */
  lemma ErodeSplits(sim: Sim, contact: real, surf: real, bsmt: real, pres: real, iceload: real, erodibility: real)
    ensures var r := ErodeCell(sim, contact, surf, bsmt, pres, iceload, erodibility);
      var f := sim.iceloadSurfReturnFraction;
      && (Exposed(contact, surf, bsmt) ==>
            && r.abrasion == Abrasion(sim, pres, iceload, erodibility)
            && r.bsmt == bsmt - r.abrasion
            && r.surf - r.bsmt == (1.0 - f) * r.abrasion
            && r.iceload - iceload == f * r.abrasion
            && (r.surf - r.bsmt) + (r.iceload - iceload) == r.abrasion)
      && (!Exposed(contact, surf, bsmt) ==> r == Eroded(bsmt, surf, iceload, 0.0))
  {
  }

  /** With a return fraction of 1 the whole abrasion goes to the iceload,
      so an exposed cell's surface ends on its lowered basement. */
  lemma ErodeReturnsAll(sim: Sim, contact: real, surf: real, bsmt: real, pres: real, iceload: real, erodibility: real)
    requires Exposed(contact, surf, bsmt) && sim.iceloadSurfReturnFraction == 1.0
    ensures ErodeCell(sim, contact, surf, bsmt, pres, iceload, erodibility).surf
         == ErodeCell(sim, contact, surf, bsmt, pres, iceload, erodibility).bsmt
  {
  }

  /** Erosion never leaves a negative iceload once a non-negative pending
      iceload change d is added: the iceload only gains its return share. */
  lemma ErodedIceload(sim: Sim, contact: real, surf: real, bsmt: real, pres: real, iceload: real,
                      erodibility: real, d: real)
    requires ErosionSound(sim) && pres >= 0.0 && iceload >= 0.0 && erodibility >= 0.0 && iceload + d >= 0.0
    ensures ErodeCell(sim, contact, surf, bsmt, pres, iceload, erodibility).iceload + d >= 0.0
  {
    if Exposed(contact, surf, bsmt) {
      AbrasionNonNegative(sim, pres, iceload, erodibility);
      assert sim.iceloadSurfReturnFraction * Abrasion(sim, pres, iceload, erodibility) >= 0.0;
    }
  }

  /** The share of an abrasion a that erode_basement returns to the surface. */
  function SurfShare(sim: Sim, a: real): real
  {
    (1.0 - sim.iceloadSurfReturnFraction) * a
  }

  /** With sound parameters and no negative pressure, iceload or
      erodibility, erosion never returns a negative share to the surface. */
  lemma SurfShareNonNegative(sim: Sim, contact: real, surf: real, bsmt: real, pres: real, iceload: real,
                             erodibility: real)
    requires ErosionSound(sim) && pres >= 0.0 && iceload >= 0.0 && erodibility >= 0.0
    ensures SurfShare(sim, ErodeCell(sim, contact, surf, bsmt, pres, iceload, erodibility).abrasion) >= 0.0
  {
    var a := ErodeCell(sim, contact, surf, bsmt, pres, iceload, erodibility).abrasion;
    if Exposed(contact, surf, bsmt) {
      AbrasionNonNegative(sim, pres, iceload, erodibility);
    }
    assert a >= 0.0 && 1.0 - sim.iceloadSurfReturnFraction >= 0.0;
  }

  /** A cell whose pending change d keeps it on or above its basement,
      eroded and then given d: unexposed, it stays on or above the basement;
      exposed, erosion resets it onto the lowered basement plus its returned
      share, so d can take it below by less than EXPOSED_TOL net of that share. */
  lemma ErodedFloor(sim: Sim, contact: real, surf: real, bsmt: real, pres: real, iceload: real,
                    erodibility: real, d: real)
    requires surf + d >= bsmt
    ensures var c := ErodeCell(sim, contact, surf, bsmt, pres, iceload, erodibility);
      && (!Exposed(contact, surf, bsmt) ==> c.surf + d >= c.bsmt)
      && (Exposed(contact, surf, bsmt) ==>
            (c.surf + d) - c.bsmt > SurfShare(sim, c.abrasion) - EXPOSED_TOL)
  {
    ErodeSplits(sim, contact, surf, bsmt, pres, iceload, erodibility);
  }

  // ---------------------------------------------------------------------------
  // check_state's bound tests.
  // ---------------------------------------------------------------------------

  predicate IceError(ice: real, surf: real)
  {
    ice - surf < -ICE_TOL
  }

  predicate BasementError(surf: real, bsmt: real)
  {
    surf - bsmt < -BSMT_TOL
  }
}
