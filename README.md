# STAB engine model

STAB is a cellular model of a glacier bed, the Subglacial Till Advection and
Bedforms engine. A grid of cells carries several rasters:

- a sediment surface (`surf`) above a basement (`bsmt`);
- the ice base (`ice`), which either rests on the sediment (contact) or
  bridges a cavity;
- a sediment load carried in the ice (`iceload`).

Each timestep runs these phases:

1. `move_ice` moves the ice one upwind weight to the east. It recomputes the
   basal pressure of every cell and decides contact or cavity.
2. `squish_sediment` visits the cells in a random order without replacement.
   In that order it moves sediment down the basal-pressure gradient into the
   four neighbours. It stops with exit status 10 if the ice-ceiling fraction
   exceeds one.
3. `advect_entrainment` records pending changes: a stochastic eastward
   advection of sediment, and an exchange between the sediment and the
   iceload. Both are limited so that no cell is dug below its basement.
4. `erode_basement` abrades exposed basement and shares the debris between
   the surface and the iceload.
5. `apply_dsurf` applies the pending changes.
6. `surf_bleed` and `iceload_bleed` remove a fixed amount, never going below
   the basement or below zero.

Supporting these phases:

- A boundary object builds the neighbour tables: periodic or mirrored read
  tables, and move tables that leave the grid through a "toxic" coordinate.
- A poll object shuffles the cell order (Fisher-Yates).
- A raster class stores the grid and provides summaries (sum, min, max,
  mean, number of no-data cells), two smoothing filters and the row order of
  its ASCII files.
- The Python `simfile` class reads, edits and writes the `> key value`
  parameter files. The scripts run under Python 2, so `split()` on a line
  separates only on space, tab, newline, carriage return, vertical tab and
  form feed.

The model has eight modules:

- `Boundaries` (boundaries.dfy) is the boundary object, a class whose setup
  loops fill arrays. The arrays are kept as `seq` snapshots and
  characterised by predicates.
- `Poll` (poll.dfy) is the poll class. The shuffle is specified by the
  recursive function `Shuffle`, and the proofs show that it permutes the
  cells and that the decoded visit order covers each cell exactly once.
- `Raster` (raster.dfy) is the raster class over an `array2<real>`. Its
  methods are proved against grid functions (`GridSum`, `GridMin`,
  `RooksGrid`, `FileOrder`, …), and lemmas bound and round-trip those
  functions.
- `StabRules` (stab_rules.dfy) holds the per-cell arithmetic of stab.hpp as
  pure functions with their own properties: pressure clamp, squish and
  advection fluxes and their limits, deposits, bleeds and erosion.
- `StabState` (stab_state.dfy) is the whole-grid semantics of every phase as
  functions on a `State` value, and `RunStep` is one timestep. Its lemmas
  state what each phase preserves:
  - mass balances with the log;
  - basement floors, and that only the rasters a phase writes change;
  - the halt code;
  - that one step from a bedded state leaves no basement error and no
    negative iceload.

  Each row-major sweep of the source is also given as a cell-by-cell
  recursive function, with a lemma that it equals the closed form.
- `Stab` (stab.dfy) is the engine class over thirteen `Raster` objects, a
  `Poll`, the environment (simulation record, neighbour tables, `cell_avg`
  and `basal_pres_fudge`) and the status log. Each phase is a method with
  loops over the arrays. Its `ensures` ties the new rasters `Model()` to the
  `StabState` function of `old(Model())`. `Run` is one call of `run`, and
  `CheckState` is `check_state`.
- `Simfile` (simfile.dfy) models `operations/simfile.py`:
  - the file's lines, as `readline` returns them, become a `seq` of
    (key, value) pairs;
  - `assign_element` and `get_element` work on that list;
  - `write_simfile` yields the output lines;
  - a round-trip lemma shows that parsing what is written gives back the
    list.
- `SimfileControl` (simfile_python2.dfy) shows on a concrete line that a
  control character outside Python 2's six separators stays inside a value.

The rest of this section covers how the model represents the source.

- **Numbers.** Doubles are modelled as exact reals. Integers are unbounded,
  and the only integer arithmetic is on coordinates, which fit.
- **Randomness.** The Mersenne twister is replaced by explicit parameters:
  - the `genrand_int32` draws of a shuffle are a `seq<nat>` in the order the
    loop consumes them;
  - the `genrand_real1` draws of advection are a grid of reals, one per cell.
- **Halts.** `exit(10)` becomes a returned status or the `Halt(10)`
  outcome.
- **Simfile.** `get_element`'s `sys.exit()` becomes the `Exit` lookup.
- **Topology.** The engine reads its neighbour tables from `surf.b`. All
  thirteen rasters are built with the same arguments, so their tables are
  equal.

## Model

| member | source | states |
|---|---|---|
| Boundaries.Shadloops | src/tb_boundaries.hpp:131-153 | one shadow loop exactly when both axes are nonperiodic, otherwise two |
| Boundaries.PeriodicInverse | src/tb_boundaries.hpp:193-221 | on a periodic axis the +1 and -1 read tables stay on the axis and undo each other |
| Boundaries.PeriodicIsModular | src/tb_boundaries.hpp:193-221 | the periodic read tables are i+1 and i-1 modulo the axis length |
| Boundaries.MirroredIsClamped | src/tb_boundaries.hpp:223-257 | the nonperiodic read tables are the neighbour index clamped into [0, dim) |
| Boundaries.ReadTablesInRange | src/tb_boundaries.hpp:110-121 | for a recognised mode every read table entry indexes the grid |
| Boundaries.MoveTablesInRangeOrToxic | src/tb_boundaries.hpp:110-121 | for a recognised mode every move table entry indexes the grid or is the toxic coordinate |
| Boundaries.NonperiodicMoveVersusRead | src/tb_boundaries.hpp:223-257 | a nonperiodic move table is toxic exactly at the outgoing edge and agrees with the read table everywhere else |
| Boundaries.FillPeriodic | src/tb_boundaries.hpp:193-221 | the loops leave wrap-around read tables and move tables equal to them |
| Boundaries.FillNonperiodic | src/tb_boundaries.hpp:223-257 | the loops leave mirrored read tables and move tables that leave the domain at the edges |
| Boundaries.SetupAxis | src/tb_boundaries.hpp:110-121 | the four tables of one axis are the ones its mode's setup builds |
| Boundaries.SetupDownflowArrays | src/tb_boundaries.hpp:155-191 | each downflow table copies the opposite move table along the flow and is the identity across it |
| Boundaries.Boundaries.Init | src/tb_boundaries.hpp:65-129 | records the geometry and modes, fills the tables as the modes specify, sets shadloops; recognised modes give tables that index the grid |
| Poll.Iota | src/tb_poll.hpp:60-63 | the initial vector coordinates are 0..len-1 in order |
| Poll.PickIsMod | src/tb_poll.hpp:75 | the drawn index is the draw modulo i+1 |
| Poll.SwapPermutes | src/tb_poll.hpp:76-78 | the exchange keeps the multiset and touches only the two positions |
| Poll.StepPermutes | src/tb_poll.hpp:74-79 | one shuffle step permutes and leaves the suffix above i alone |
| Poll.StepsPermutes | src/tb_poll.hpp:74-79 | the whole shuffle loop is a permutation of the vector coordinates |
| Poll.StepsFreezeSuffix | src/tb_poll.hpp:74-79 | positions already passed by the downward loop never change again |
| Poll.IotaCounts | src/tb_poll.hpp:60-63 | every cell code 0..len-1 occurs exactly once in the initial vector |
| Poll.DecodeInGrid | src/tb_poll.hpp:82-85 | a code in [0, ydim*xdim) decodes to a grid cell and re-encodes to itself |
| Poll.EncodeInRange | src/tb_poll.hpp:82-85 | every grid cell is the decoding of the code x*ydim+y, which is in range |
| Poll.PermutationVisitsEachCellOnce | src/tb_poll.hpp:68-86 | decoding any permutation of the cell codes visits every cell exactly once |
| Poll.Poll.Init | src/tb_poll.hpp:40-66 | len is ydim*xdim, the coordinates are the shuffle of 0..len-1 and the visit order covers each cell once |
| Poll.Poll.CalcNewSequence | src/tb_poll.hpp:68-86 | the vector coordinates become Shuffle of the old ones under the draws, remain a permutation, and the lookup vectors visit each cell once |
| Poll.Poll.Exchange | src/tb_poll.hpp:76-78 | the vector coordinates become their swap at r and i |
| Poll.Poll.DecodeAll | src/tb_poll.hpp:82-85 | the lookup vectors hold the row and column of each code and visit each cell once |
| Raster.ConstGrid | src/tb_raster.hpp:505-526 | a ydim x xdim grid holding v in every cell |
| Raster.FromFileOrder | src/tb_raster.hpp:126-250 | the grid a file body of rows*xdim values fills has the raster's shape |
| Raster.GridMinIsMin | src/tb_raster.hpp:583-600 | min is at most the start value and at most every valid cell, and is the start value or a valid cell |
| Raster.GridMaxIsMax | src/tb_raster.hpp:602-619 | max is at least the start value and every valid cell, and is the start value or a valid cell |
| Raster.GridCounts | src/tb_raster.hpp:621-636 | valid cells plus no-data cells are all ydim*xdim cells |
| Raster.GridSumBounds | src/tb_raster.hpp:566-581 | the sum of valid cells within [lo, hi] lies between n*lo and n*hi for n valid cells |
| Raster.GridMeanBounds | src/tb_raster.hpp:638-655 | with a valid cell, the mean lies between min and max |
| Raster.GridMeanConstant | src/tb_raster.hpp:638-655 | a raster whose valid cells all hold c has mean c |
| Raster.NeighbourhoodMeanBounds | src/tb_raster.hpp:664-786 | a filter cell is the output no-data iff no neighbour is valid, else lies within the bounds of the valid neighbours |
| Raster.FileOrderLength | src/tb_raster.hpp:79-124 | the file body lists exactly ydim*xdim values |
| Raster.FileOrderRoundTrip | src/tb_raster.hpp:79-250 | reading back what write_ascii_raster wrote restores the grid (rows written north to south, read back in the same order) |
| Raster.ReadWriteRoundTrip | src/tb_raster.hpp:79-250 | writing what read_ascii_raster read gives back the file body |
| Raster.Raster.Init | src/tb_raster.hpp:43-64 | records the geometry, sets every cell to the default no-data value, and builds the boundary tables for the two modes |
| Raster.Raster.SetNull | src/tb_raster.hpp:505-515 | every cell becomes the no-data value |
| Raster.Raster.SetValue | src/tb_raster.hpp:517-526 | every cell becomes the given value |
| Raster.Raster.CopyRasterCells | src/tb_raster.hpp:543-564 | status 10 iff the dimensions differ, then nothing changes; otherwise every cell is the source cell with its no-data mapped to ours |
| Raster.Raster.Sum | src/tb_raster.hpp:566-581 | the sum of the valid cells |
| Raster.Raster.NumNAs | src/tb_raster.hpp:621-636 | the number of no-data cells |
| Raster.Raster.Min | src/tb_raster.hpp:583-600 | the running minimum of the valid cells from the start value (see GridMinIsMin) |
| Raster.Raster.Max | src/tb_raster.hpp:602-619 | the running maximum of the valid cells from the start value (see GridMaxIsMax) |
| Raster.Raster.Mean | src/tb_raster.hpp:638-655 | no-data when every cell is no-data, else sum over valid count (see GridMeanBounds) |
| Raster.Raster.RooksFilter | src/tb_raster.hpp:664-715 | every output cell is the mean of the valid values among the cell and its four read neighbours, or the output no-data |
| Raster.Raster.QueensFilter | src/tb_raster.hpp:717-786 | as RooksFilter over the cell and its eight read neighbours |
| Raster.Raster.WriteValues | src/tb_raster.hpp:79-124 | the emitted values are the grid in file order, row ydim-1 first |
| Raster.Raster.ReadValues | src/tb_raster.hpp:126-250 | the grid becomes the file body with its first row stored as row ydim-1 |
| Simfile.Split | operations/simfile.py:61 | the Python 2 whitespace split (space, tab, newline, carriage return, vertical tab, form feed) yields non-empty words free of those characters |
| SimfileControl.ControlCharInValue | operations/simfile.py:61-68 | a control character other than the six Python 2 separators stays inside the value: "> key a\x1cb" keeps "a\x1cb" |
| Simfile.DropNewlines | operations/simfile.py:65 | no newline remains; a string without one is unchanged |
| Simfile.DropCr | operations/simfile.py:66 | a string without the three-character marker `\cr` (backslash, c, r) is unchanged |
| Simfile.DropCrSinglePass | operations/simfile.py:66 | replacement is one left-to-right pass: a marker assembled by a removal survives |
| Simfile.ParseLine | operations/simfile.py:61-68 | a line gives a pair iff it has more than two words and the first is '>'; the pair is word 1 and cleaned word 2 |
| Simfile.ParseAppend | operations/simfile.py:55-72 | reading one more line appends that line's pair, if any, and an empty line ends the file |
| Simfile.PrefixParse | operations/simfile.py:57-60 | the lines after the first empty one are never read |
| Simfile.Lines | operations/simfile.py:144-145 | one output line per element, in list order |
| Simfile.ParseLineOfLine | operations/simfile.py:144-145 | a written line is parsed back into its own pair |
| Simfile.ParseLines | operations/simfile.py:38-74 | round trip: parsing the lines write_simfile produces gives back the element list for non-empty whitespace-free keys and values |
| Simfile.Assign | operations/simfile.py:84-91 | same length and keys; every entry with the key gets the value, every other entry is unchanged; an unknown key changes nothing |
| Simfile.LastValueIsLast | operations/simfile.py:100-106 | the looked-up value is the value of the last matching entry, or "" when none matches |
| Simfile.GetAfterAssign | operations/simfile.py:76-111 | after assigning a non-empty value, getting the key finds that value, or exits if the key was unknown |
| Simfile.GetOtherAfterAssign | operations/simfile.py:76-111 | assigning one key never changes what another key looks up |
| Simfile.Simfile.Init | operations/simfile.py:38-74 | the element list is the parse of the reference file's lines |
| Simfile.Simfile.AssignElement | operations/simfile.py:76-93 | the list becomes Assign of the old list; found iff the key was present (the error message path) |
| Simfile.Simfile.GetElement | operations/simfile.py:95-111 | the last matching value, or Exit when it is missing or empty |
| Simfile.Simfile.WriteSimfile | operations/simfile.py:136-147 | the written lines are '> key value' for each element in order |
| StabRules.WeightsConvex | src/stab.hpp:87-90 | once the stability check passes, the two move_ice weights lie in [0, 1] and sum to 1 |
| StabRules.BasalPres | src/stab.hpp:320-334 | contact is 0 or 1; cavity iff the raw pressure minus the fudge is negative, with pressure 0; under contact the pressure is the raw value and at least the fudge |
| StabRules.MoveIceSettles | src/stab.hpp:277-318 | a cell is a cavity iff the sediment lies below the zero-pressure elevation plus the fudge; a cavity's ice base is that elevation, a contact cell's is the surface |
| StabRules.CavityThreshold | src/stab.hpp:328 | the clamp test, solved for the basal deformation |
| StabRules.MoveIceloadBlend | src/stab.hpp:306-307 | the moved iceload lies between the cell's and its west neighbour's |
| StabRules.SqPotential | src/stab.hpp:460-497 | zero unless the pressure falls towards the neighbour; then at most both the gradient flux and the cap, and equal to one of them |
| StabRules.SqPotentialFitsCavity | src/stab.hpp:485-492 | squish into a cavity never lifts its sediment above its ice |
| StabRules.SquishHaltCode | src/stab.hpp:395-398 | the limits stop a squish only with exit status 10 |
| StabRules.BasementLimitFloor | src/stab.hpp:373-382 | where the basement check fires the removal is exactly the available sediment, and a cell above its basement is never dug below it |
| StabRules.CeilingLimitShrinks | src/stab.hpp:384-404 | halt iff the ceiling fraction exceeds one; otherwise the fluxes are scaled by a fraction in [0, 1]; a surface above the ceiling is never lowered below it |
| StabRules.SquishKeepsBasement | src/stab.hpp:372-406 | after both limits a cell at or above its basement stays there |
| StabRules.Advection | src/stab.hpp:562-590 | never negative, and zero when the mean pressure of the cell and its east neighbour is not positive |
| StabRules.EntrainmentThroughVertex | src/stab.hpp:606-614 | under contact the entrainment rate is continuous and piecewise linear through the vertex |
| StabRules.Entrainment | src/stab.hpp:592-624 | the rate over a timestep, clipped to never take more than the iceload holds |
| StabRules.AdvLimitFloor | src/stab.hpp:519-537 | where the check fires the removal equals the available sediment, no cell is dug below its basement, and a distrainment is unchanged |
| StabRules.AdvLimitIceload | src/stab.hpp:519-537 | the limited entrainment never drives the iceload negative |
| StabRules.DepositBelowIce | src/stab.hpp:425-458 | a deposit never lifts the surface above the ice; it lands in full, or snaps a nearly full cavity to the ice; contact cells carry the ice and deformation with it |
| StabRules.SurfBleedCell | src/stab.hpp:695-706 | the bleed removes the amount but never goes below the basement; value plus removal is the old surface |
| StabRules.IceloadBleedCell | src/stab.hpp:660-674 | the bleed removes the amount but never goes below zero; value plus removal is the old iceload |
| StabRules.AbrasionNonNegative | src/stab.hpp:736-744 | with non-negative coefficients and inputs the abrasion is non-negative |
| StabRules.ErodeSplits | src/stab.hpp:714-759 | an exposed cell loses the abrasion from its basement and splits it between surface and iceload by the return fraction; other cells are unchanged |
| StabRules.ErodeReturnsAll | src/stab.hpp:733-753 | with a return fraction of 1 the whole abrasion goes to the iceload and an exposed cell's surface ends exactly on its lowered basement |
| StabRules.ErodedIceload | src/stab.hpp:745-752 | erosion never makes a non-negative iceload balance negative |
| StabRules.ErodedFloor | src/stab.hpp:730-752 | erosion keeps an unexposed cell above its basement and an exposed one within the film tolerance of its surface share |
| StabState.DepositSqMass | src/stab.hpp:425-458 | a deposit adds what lands to the surface or, off the grid, to the bleed log; less than q plus the snap tolerance lands; only the target cell changes |
| StabState.LoweredSource | src/stab.hpp:407-410 | the lowered source stays above its basement, keeps its ice on its surface and loses exactly the removal |
| StabState.VisitKeepsRest | src/stab.hpp:363-421 | a squish visit changes no raster other than surface, ice, deformation, pressure, contact and the squish log |
| StabState.VisitMass | src/stab.hpp:363-421 | a visit moves surface mass from the source to the four deposits, within four snap tolerances |
| StabState.VisitGainBound | src/stab.hpp:363-421 | a visit that pushes no negative squish creates less than 4 * SNAP_TOL of sediment plus bleed |
| StabState.SquishMass | src/stab.hpp:336-423 | over the whole squish, sediment plus bleed changes by the sum over the visits made of what lands less what was requested |
| StabState.SquishGainBound | src/stab.hpp:336-423 | when no visit pushes negative squish, that change is at most 4 * SNAP_TOL per visit |
| StabState.SquishKeepsRest | src/stab.hpp:336-423 | the whole squish changes only the rasters it writes |
| StabState.SquishHaltStays | src/stab.hpp:397 | after a halt, later visits do not run |
| StabState.SquishGrounded | src/stab.hpp:336-423 | a squish keeps sediment and ice above the basement and pressures non-negative |
| StabState.SquishHaltIsCeiling | src/stab.hpp:395-398 | a squish halts only through the ice-ceiling check, with status 10 |
| StabState.MoveIceState | src/stab.hpp:277-318 | move_ice leaves surface, basement, erodibility, pending changes and log alone and settles every cell as MoveIceSettles says |
| StabState.MoveIceBySweeps | src/stab.hpp:279-317 | the two row-major sweeps of the source give MoveIce |
| StabState.AdvStepConserves | src/stab.hpp:499-560 | one cell's advection only moves mass between pending surface, pending iceload and the bleed log |
| StabState.AdvRowsConserve | src/stab.hpp:499-560 | the whole sweep conserves pending mass and logs no abrasion |
| StabState.AdvAtBounds | src/stab.hpp:515-537 | a cell's limited advection is non-negative and never digs it below its basement |
| StabState.AdvectedDone | src/stab.hpp:499-560 | the row-major sweep of the source gives Advect |
| StabState.AdvectPending | src/stab.hpp:499-560 | after advection the pending surface and iceload changes plus the new bleed sum to zero |
| StabState.AdvectPendingFloor | src/stab.hpp:505-548 | applying a cell's pending change alone keeps it above its basement |
| StabState.ApplyBySweep | src/stab.hpp:626-636 | the row-major sweep of the source gives ApplyDsurf |
| StabState.ErodeBySweep | src/stab.hpp:714-759 | the row-major sweep of the source gives Erode |
| StabState.ErodeBalance | src/stab.hpp:714-759 | the basement total falls by the logged abrasion; per cell the ErodeSplits shares |
| StabState.ErodeSediment | src/stab.hpp:733-749 | erosion adds the logged abrasion to the sediment, minus the film of exposed cells it resets |
| StabState.ErodeColumns | src/stab.hpp:733-753 | summed over the grid, the old sediment plus the logged abrasion equals the eroded sediment plus the dropped film |
| StabState.FilmBound | src/stab.hpp:733 | the dropped film is at most the exposure tolerance per cell |
| StabState.AdvectErodeApplyBalance | src/stab.hpp:150-152 | advect, erode, apply in run's order: sediment plus bleed changes only by abrasion minus the film |
| StabState.AdvectErodeApplyFloor | src/stab.hpp:150-152 | in run's order, unexposed cells stay above the basement and exposed ones within the film tolerance of their surface share |
| StabState.AdvectErodeApplyNearFloor | src/stab.hpp:150-152 | in run's order no cell falls more than the exposure tolerance below its basement, so check_state finds no basement error |
| StabState.ExactFloorFails | src/stab.hpp:733-749 | a one-cell run where erosion followed by apply_dsurf leaves the surface 5e-11 below the basement, inside check_state's tolerance |
| StabState.OneCellFloorFails | src/stab.hpp:733-753 | on a one-cell bleeding grid, an exposed cell whose advection takes its whole sediment and whose abrasion all returns to the iceload ends, after apply_dsurf, below its basement by that sediment, which check_state's BSMT_TOL still accepts |
| StabState.ReturnAllFloor | src/stab.hpp:733-753 | in run's order, with a return fraction of 1, an exposed cell ends above its new basement by exactly its pending dsurf |
| StabState.AdvectErodeApplyCell | src/stab.hpp:626-636 | after advection, erosion and apply_dsurf a cell holds its own eroded surface plus its pending dsurf, over its eroded basement |
| StabState.SurfBleedBySweep | src/stab.hpp:682-712 | the row-major sweep of the source gives SurfBleed |
| StabState.SurfBleedBalance | src/stab.hpp:682-712 | the surface total falls by the logged bleed; nothing changes with zero bleed, otherwise every cell ends on or above the basement |
| StabState.IceloadBleedBySweep | src/stab.hpp:638-680 | the row-major sweep of the source gives IceloadBleed |
| StabState.IceloadBleedBalance | src/stab.hpp:638-680 | the iceload total falls by the logged bleed; nothing changes with zero bleed, otherwise no iceload is negative |
| StabState.RunStepHalt | src/stab.hpp:137-155 | a step halts iff its squish halts, and then with status 10 |
| StabState.MovedGrounded | src/stab.hpp:277-318 | from a bedded state move_ice leaves sediment and ice above the basement and pressures, iceload and erodibility non-negative |
| StabState.SquishedOnBed | src/stab.hpp:143-149 | moving and squishing a bedded state leaves it on its bed |
| StabState.AdvectErodeApplyIceload | src/stab.hpp:150-152 | advect, erode, apply on a state on its bed keeps every iceload non-negative |
| StabState.StepKeepsIceload | src/stab.hpp:137-155 | a completed step from a bedded state leaves no negative iceload |
| StabState.StepNoBasementError | src/stab.hpp:137-155 | a completed step from a bedded state leaves nothing check_state reports as a basement error |
| StabState.StepBleedFloor | src/stab.hpp:137-155 | with a surface bleed, a completed step leaves every cell on or above its basement |
| Stab.Stab.Init | src/stab.hpp:92-124 | all thirteen rasters no-data on the simulation's grid; the poll is shuffled and visits each cell once |
| Stab.Stab.Start | src/stab.hpp:70-134 | status 10 iff the stability check fails or the initialisation type is unknown; otherwise the rasters hold the flat initial state and the poll is shuffled |
| Stab.Stab.InitFlat | src/stab.hpp:255-264 | surface, basement, erodibility, ice, iceload and contact take their flat values; the others are unchanged |
| Stab.Stab.CalcBasalPres | src/stab.hpp:320-334 | one cell's pressure and contact become BasalPres of its deformation |
| Stab.Stab.DepositSqSed | src/stab.hpp:425-458 | the state becomes DepositSq (see DepositSqMass) |
| Stab.Stab.CalcSqPotential | src/stab.hpp:460-497 | the flux SqPotential gives for the current rasters |
| Stab.Stab.CalcSquishLimit | src/stab.hpp:366-406 | both limits applied to the four potentials; a halt carries status 10 |
| Stab.Stab.SquishCell | src/stab.hpp:363-421 | status 0 and the state of the visit, or its halt status with nothing changed |
| Stab.Stab.SquishSediment | src/stab.hpp:336-423 | the poll is reshuffled and the rasters become the squish in the new order, or it halts |
| Stab.Stab.MoveIce | src/stab.hpp:277-318 | the rasters become StabState.MoveIce of the old ones |
| Stab.Stab.AdvectEntrainment | src/stab.hpp:499-560 | the rasters become Advect of the old ones under the draws |
| Stab.Stab.ErodeBasement | src/stab.hpp:714-759 | the rasters become Erode of the old ones |
| Stab.Stab.ApplyDsurf | src/stab.hpp:626-636 | the rasters become ApplyDsurf of the old ones |
| Stab.Stab.SurfBleed | src/stab.hpp:682-712 | the rasters become SurfBleed of the old ones |
| Stab.Stab.IceloadBleed | src/stab.hpp:638-680 | the rasters become IceloadBleed of the old ones |
| Stab.Stab.Run | src/stab.hpp:137-155 | status 0 or 10; the poll is reshuffled; the new rasters are RunStep of the old ones, or the step halted with 10 |
| Stab.Stab.MoveAndSquish | src/stab.hpp:143-149 | the rasters become the squish of the moved ice, or it halts with status 10 |
| Stab.Stab.RunPhases | src/stab.hpp:150-154 | advect, erode, apply and both bleeds in run's order |
| Stab.Stab.CheckState | src/stab.hpp:761-796 | reports an error iff some cell has ice more than ICE_TOL below its surface or surface more than BSMT_TOL below its basement |

## Left out

- Stab.Start: the "existing" initialisation (`init_existing`, stab.hpp:266) reads raster files and is not modelled, so Start requires `initType != "existing"`.
- Stab.Start: requires `SimOk` (positive dimensions, cell size, timestep and viscosity) and recognised boundary modes. The source checks neither. It divides by these parameters, and an unknown mode leaves the tables unset (tb_boundaries.hpp:110-121).
- Stab.Start: shuffles the poll before `InitFlat`, while the source initialises the rasters first (stab.hpp:108-118). The two have no effect on each other, since `init_flat` draws nothing.
- Stab.Init: the clock seed of the twister, reading the simfile through `sim.init` (simulation.hpp is not part of this model), the status-report file and the verbose summaries.
- Raster.Raster.RooksFilter: requires `oput.ras != ras`. The source passes `oput` by value, which shares the cell array, so filtering a raster into itself is possible there. The model does not cover that aliased case.
- Raster.Raster.QueensFilter: requires `oput.ras != ras`, for the same reason.
- Stab.Stab.AdvectEntrainment: takes one advection draw per cell, in a grid of reals. The source draws from the Mersenne stream only where the mean pressure is positive (stab.hpp:578-581), and that stream is shared with the poll. The order in which the draws are consumed is not modelled.
- StabState.IceloadBleed: models only the non-diffusive branch. The source fixes `diffusive = false` (stab.hpp:651), so the diffusive formula is unreachable.
- Doubles: modelled as exact reals. Rounding, NaN and infinity are not modelled, which also leaves out `check_state`'s NaN test (stab.hpp:767-772).
- StabState.StepKeepsIceload: requires `Bedded`, which means the moved ice lies on or above the basement in every cell. A cavity's ice can sit up to `basal_pres_fudge`·dt/viscosity below the sediment, so below a thin sediment layer. A squish deposit that snaps the surface to that ice could then dig below the basement.
- StabState.StepNoBasementError: requires `Bedded`, for the same reason.
- StabState.ErodeSediment: erosion resets an exposed cell's surface to the basement and drops its film of less than EXPOSED_TOL. The balance lemmas carry this film explicitly (`Film`, bounded by FilmBound) rather than claiming exact conservation.
- Stab.Stab.Run: models a step without the interim output. The source calls `push_model_state` between `move_ice` and `squish_sediment` every `interim_file_output_interval` steps (stab.hpp:145-147). That call writes files and summary statistics, and it also overwrites the logged total bleed with the sum of the two bleeds (stab.hpp:222). The balance lemmas use the total bleed as the phases accumulate it.
- `push_model_state`, the status log's file (stab_log.hpp), `finalize`, `print_raster_summaries` and `print_summary`: these are file, console and plotting output. The running totals that the phases add to the log (squish, advection, bleeds, abrasion) are modelled.
- Slope and aspect (`calc_aspect_horn`, `calc_slope_horn`, `calc_aspect_d8` and `calc_slope_d8`, tb_raster.hpp:253-503) and `bumpify` (tb_raster.hpp:528-541): the engine does not use them.
- The ASCII raster files (tb_raster.hpp:79-250): only the order of the cell values is modelled. Headers, number formatting and file handling are not.
- `read_simfile` (simfile.py:113-134): it calls `f.open` on an unbound name and cannot run as written.
- The simfile's file handling: `__init__` takes the lines `readline` returns, and `write_simfile` returns its lines instead of writing a file. The missing-file `sys.exit()` and the printed messages are left out. The placeholder first element (`[[]]`, removed at simfile.py:72) is never represented.
- Simulation driver scripts, plotting and timing helpers (simulation.hpp, stab_main.cpp, plot_progress.hpp, timeprinter.hpp, the operations/ scripts other than simfile.py): they are outside the engine core.
