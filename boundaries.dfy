/** Neighbour lookup tables of a ydim x xdim grid (tb_boundaries).

    Every axis has a "read" table (the neighbour whose value is inspected) and
    a "move" table (the neighbour that receives transported mass, or the toxic
    coordinate when the mass leaves the domain). */
module Boundaries {

  /** The sentinel the move tables hold where mass leaves the domain. */
  const TOXIC_COORD: int := -1

  const PERIODIC: string := "periodic"
  const NONPERIODIC: string := "nonperiodic"

  /** A boundary mode the setup code acts on. */
  predicate KnownMode(mode: string)
  {
    mode == PERIODIC || mode == NONPERIODIC
  }

  // ---------------------------------------------------------------------------
  // What the tables of one axis of length `dim` hold.
  // ---------------------------------------------------------------------------

  /** `next` steps +1 and `prev` steps -1, and both wrap around. */
  ghost predicate PeriodicRead(dim: nat, next: seq<int>, prev: seq<int>)
  {
    && dim > 0 && |next| == dim && |prev| == dim
    && (forall i :: 0 <= i < dim - 1 ==> next[i] == i + 1)
    && next[dim - 1] == 0
    && (forall i :: 0 < i < dim ==> prev[i] == i - 1)
    && prev[0] == dim - 1
  }

  /** `next` steps +1 and `prev` steps -1, and both mirror the edge cell. */
  ghost predicate MirroredRead(dim: nat, next: seq<int>, prev: seq<int>)
  {
    && dim > 0 && |next| == dim && |prev| == dim
    && (forall i :: 0 <= i < dim - 1 ==> next[i] == i + 1)
    && next[dim - 1] == dim - 1
    && (forall i :: 0 < i < dim ==> prev[i] == i - 1)
    && prev[0] == 0
  }

  /** `next` steps +1 and `prev` steps -1, and both leave the domain at the edge. */
  ghost predicate ToxicMove(dim: nat, next: seq<int>, prev: seq<int>, toxic: int)
  {
    && dim > 0 && |next| == dim && |prev| == dim
    && (forall i :: 0 <= i < dim - 1 ==> next[i] == i + 1)
    && next[dim - 1] == toxic
    && (forall i :: 0 < i < dim ==> prev[i] == i - 1)
    && prev[0] == toxic
  }

  /** The four tables of an axis, as the setup code for `mode` leaves them. */
  ghost predicate AxisTables(mode: string, dim: nat, next: seq<int>, prev: seq<int>,
                             nextM: seq<int>, prevM: seq<int>, toxic: int)
  {
    && (mode == PERIODIC ==> PeriodicRead(dim, next, prev) && nextM == next && prevM == prev)
    && (mode == NONPERIODIC ==> MirroredRead(dim, next, prev) && ToxicMove(dim, nextM, prevM, toxic))
  }

  /** Every entry lies in [0, dim). */
  ghost predicate InRange(dim: nat, t: seq<int>)
  {
    forall i :: 0 <= i < |t| ==> 0 <= t[i] < dim
  }

  /** Every entry lies in [0, dim) or is the toxic coordinate. */
  ghost predicate InRangeOrToxic(dim: nat, t: seq<int>, toxic: int)
  {
    forall i :: 0 <= i < |t| ==> 0 <= t[i] < dim || t[i] == toxic
  }

  /** The identity table of length `dim`. */
  ghost predicate Identity(dim: nat, t: seq<int>)
  {
    |t| == dim && forall i :: 0 <= i < dim ==> t[i] == i
  }

  /** The number of shadow-updater loops for the two modes. */
  function Shadloops(ns: string, ew: string): (r: int)
    ensures r == 1 || r == 2
    ensures r == 1 <==> ns == NONPERIODIC && ew == NONPERIODIC
  {
    if ns == NONPERIODIC && ew == NONPERIODIC then 1 else 2
  }

  // ---------------------------------------------------------------------------
  // Properties of the tables.
  // ---------------------------------------------------------------------------

  /** On a periodic axis the two read tables are mutual inverses. */
  lemma PeriodicInverse(dim: nat, next: seq<int>, prev: seq<int>)
    requires PeriodicRead(dim, next, prev)
    ensures forall i :: 0 <= i < dim ==> 0 <= next[i] < dim && prev[next[i]] == i
    ensures forall i :: 0 <= i < dim ==> 0 <= prev[i] < dim && next[prev[i]] == i
  {
    forall i | 0 <= i < dim
      ensures 0 <= next[i] < dim && prev[next[i]] == i
    {
      if i < dim - 1 { assert next[i] == i + 1; } else { assert next[i] == 0; }
    }
    forall i | 0 <= i < dim
      ensures 0 <= prev[i] < dim && next[prev[i]] == i
    {
      if i > 0 { assert prev[i] == i - 1; } else { assert prev[i] == dim - 1; }
    }
  }

  /** The periodic read tables are +1 and -1 modulo dim. */
  lemma PeriodicIsModular(dim: nat, next: seq<int>, prev: seq<int>)
    requires PeriodicRead(dim, next, prev)
    ensures forall i :: 0 <= i < dim ==> next[i] == (i + 1) % dim
    ensures forall i :: 0 <= i < dim ==> prev[i] == (i - 1) % dim
  {
    forall i | 0 <= i < dim
      ensures next[i] == (i + 1) % dim && prev[i] == (i - 1) % dim
    {
      if i < dim - 1 { ModIdentity(i + 1, dim, 0); } else { ModIdentity(i + 1, dim, 1); }
      if i > 0 { ModIdentity(i - 1, dim, 0); } else { ModIdentity(i - 1, dim, -1); }
    }
  }

  /** a % d == a - q * d whenever a - q * d lies in [0, d). */
  lemma ModIdentity(a: int, d: int, q: int)
    requires d > 0 && 0 <= a - q * d < d
    ensures a % d == a - q * d
  {
    var r := a % d;
    var k := a / d;
    assert a == k * d + r && 0 <= r < d;
    if k > q {
      assert k * d >= (q + 1) * d by { MulMono(q + 1, k, d); }
    } else if k < q {
      assert k * d <= (q - 1) * d by { MulMono(k, q - 1, d); }
    }
  }

  lemma MulMono(a: int, b: int, d: int)
    requires a <= b && d >= 0
    ensures a * d <= b * d
  {
    assert b * d - a * d == (b - a) * d;
  }

  /** The mirrored read tables are the neighbour index clamped into the axis. */
  lemma MirroredIsClamped(dim: nat, next: seq<int>, prev: seq<int>)
    requires MirroredRead(dim, next, prev)
    ensures forall i :: 0 <= i < dim ==> next[i] == (if i + 1 < dim then i + 1 else dim - 1)
    ensures forall i :: 0 <= i < dim ==> prev[i] == (if i - 1 >= 0 then i - 1 else 0)
  {
  }

  /** Read tables of a known mode never leave the axis. */
  lemma ReadTablesInRange(mode: string, dim: nat, next: seq<int>, prev: seq<int>,
                          nextM: seq<int>, prevM: seq<int>, toxic: int)
    requires KnownMode(mode) && AxisTables(mode, dim, next, prev, nextM, prevM, toxic)
    ensures InRange(dim, next) && InRange(dim, prev)
  {
    if mode == PERIODIC {
      PeriodicInverse(dim, next, prev);
    }
  }

  /** Move tables of a known mode lie in the axis or hold the toxic coordinate. */
  lemma MoveTablesInRangeOrToxic(mode: string, dim: nat, next: seq<int>, prev: seq<int>,
                                 nextM: seq<int>, prevM: seq<int>, toxic: int)
    requires KnownMode(mode) && AxisTables(mode, dim, next, prev, nextM, prevM, toxic)
    ensures InRangeOrToxic(dim, nextM, toxic) && InRangeOrToxic(dim, prevM, toxic)
  {
    if mode == PERIODIC {
      ReadTablesInRange(mode, dim, next, prev, nextM, prevM, toxic);
    }
  }

  /** On a non-periodic axis the move tables hold the toxic coordinate exactly at
      the edges and agree with the read tables everywhere else. */
  lemma NonperiodicMoveVersusRead(dim: nat, next: seq<int>, prev: seq<int>,
                                  nextM: seq<int>, prevM: seq<int>)
    requires MirroredRead(dim, next, prev) && ToxicMove(dim, nextM, prevM, TOXIC_COORD)
    ensures forall i :: 0 <= i < dim ==> (nextM[i] == TOXIC_COORD <==> i == dim - 1)
    ensures forall i :: 0 <= i < dim ==> (prevM[i] == TOXIC_COORD <==> i == 0)
    ensures forall i :: 0 <= i < dim && nextM[i] != TOXIC_COORD ==> nextM[i] == next[i]
    ensures forall i :: 0 <= i < dim && prevM[i] != TOXIC_COORD ==> prevM[i] == prev[i]
  {
  }

  // ---------------------------------------------------------------------------
  // Table setup, in place.
  // ---------------------------------------------------------------------------

  /** setup_periodic_ns / setup_periodic_ew on one axis. */
  method FillPeriodic(dim: nat, next: array<int>, prev: array<int>, nextM: array<int>, prevM: array<int>)
    requires dim > 0
    requires next.Length == dim && prev.Length == dim && nextM.Length == dim && prevM.Length == dim
    requires next != prev && next != nextM && next != prevM && prev != nextM && prev != prevM && nextM != prevM
    modifies next, prev, nextM, prevM
    ensures PeriodicRead(dim, next[..], prev[..])
    ensures nextM[..] == next[..] && prevM[..] == prev[..]
  {
    for y := 0 to dim
      invariant forall i :: 0 <= i < y ==> next[i] == i + 1 && prev[i] == i - 1
      invariant forall i :: 0 <= i < y ==> nextM[i] == i + 1 && prevM[i] == i - 1
    {
      next[y] := y + 1;
      prev[y] := y - 1;
      nextM[y] := y + 1;
      prevM[y] := y - 1;
    }
    next[dim - 1] := 0;
    prev[0] := dim - 1;
    nextM[dim - 1] := 0;
    prevM[0] := dim - 1;
  }

  /** setup_nonperiodic_ns / setup_nonperiodic_ew on one axis. */
  method FillNonperiodic(dim: nat, toxic: int, next: array<int>, prev: array<int>, nextM: array<int>, prevM: array<int>)
    requires dim > 0
    requires next.Length == dim && prev.Length == dim && nextM.Length == dim && prevM.Length == dim
    requires next != prev && next != nextM && next != prevM && prev != nextM && prev != prevM && nextM != prevM
    modifies next, prev, nextM, prevM
    ensures MirroredRead(dim, next[..], prev[..])
    ensures ToxicMove(dim, nextM[..], prevM[..], toxic)
  {
    for y := 0 to dim
      invariant forall i :: 0 <= i < y ==> next[i] == i + 1 && prev[i] == i - 1
      invariant forall i :: 0 <= i < y ==> nextM[i] == i + 1 && prevM[i] == i - 1
    {
      next[y] := y + 1;
      prev[y] := y - 1;
      nextM[y] := y + 1;
      prevM[y] := y - 1;
    }
    next[dim - 1] := dim - 1;
    prev[0] := 0;
    nextM[dim - 1] := toxic;
    prevM[0] := toxic;
  }

  /** A fresh copy of `src` (a downflow table that follows a move table). */
  method CopiedTable(src: array<int>) returns (dst: array<int>)
    ensures fresh(dst) && dst[..] == src[..]
  {
    dst := new int[src.Length];
    for i := 0 to src.Length
      invariant forall k :: 0 <= k < i ==> dst[k] == src[k]
    {
      dst[i] := src[i];
    }
  }

  /** A fresh identity table of length `dim` (a downflow table across the flow). */
  method IdentityTable(dim: nat) returns (dst: array<int>)
    ensures fresh(dst) && Identity(dim, dst[..])
  {
    dst := new int[dim];
    for i := 0 to dim
      invariant forall k :: 0 <= k < i ==> dst[k] == k
    {
      dst[i] := i;
    }
  }

  /** The tables of one axis: allocation, then setup_periodic_* when the mode
      is "periodic" and setup_nonperiodic_* when it is "nonperiodic". */
  method SetupAxis(mode: string, dim: nat) returns (next: array<int>, prev: array<int>, nextM: array<int>, prevM: array<int>)
    requires dim > 0
    ensures fresh(next) && fresh(prev) && fresh(nextM) && fresh(prevM)
    ensures next.Length == dim && prev.Length == dim && nextM.Length == dim && prevM.Length == dim
    ensures AxisTables(mode, dim, next[..], prev[..], nextM[..], prevM[..], TOXIC_COORD)
  {
    next, prev, nextM, prevM := new int[dim], new int[dim], new int[dim], new int[dim];
    if mode == PERIODIC {
      FillPeriodic(dim, next, prev, nextM, prevM);
    }
    if mode == NONPERIODIC {
      FillNonperiodic(dim, TOXIC_COORD, next, prev, nextM, prevM);
    }
  }

  /** setup_downflow_arrays: the downflow neighbour of a cell for flow toward
      each compass direction, copied from the move tables. */
  method SetupDownflowArrays(ydim: nat, xdim: nat, n1m: array<int>, s1m: array<int>, e1m: array<int>, w1m: array<int>)
    returns (y1cdwN: array<int>, x1cdwN: array<int>, y1cdwS: array<int>, x1cdwS: array<int>,
             y1cdwE: array<int>, x1cdwE: array<int>, y1cdwW: array<int>, x1cdwW: array<int>)
    requires n1m.Length == ydim && s1m.Length == ydim && e1m.Length == xdim && w1m.Length == xdim
    ensures fresh(y1cdwN) && fresh(x1cdwN) && fresh(y1cdwS) && fresh(x1cdwS)
    ensures fresh(y1cdwE) && fresh(x1cdwE) && fresh(y1cdwW) && fresh(x1cdwW)
    ensures y1cdwN.Length == ydim && y1cdwS.Length == ydim && y1cdwE.Length == ydim && y1cdwW.Length == ydim
    ensures x1cdwN.Length == xdim && x1cdwS.Length == xdim && x1cdwE.Length == xdim && x1cdwW.Length == xdim
    ensures y1cdwN[..] == s1m[..] && y1cdwS[..] == n1m[..]
    ensures x1cdwE[..] == w1m[..] && x1cdwW[..] == e1m[..]
    ensures Identity(xdim, x1cdwN[..]) && Identity(xdim, x1cdwS[..])
    ensures Identity(ydim, y1cdwE[..]) && Identity(ydim, y1cdwW[..])
  {
    y1cdwN := CopiedTable(s1m);
    x1cdwN := IdentityTable(xdim);
    y1cdwS := CopiedTable(n1m);
    x1cdwS := IdentityTable(xdim);
    y1cdwE := IdentityTable(ydim);
    x1cdwE := CopiedTable(w1m);
    y1cdwW := IdentityTable(ydim);
    x1cdwW := CopiedTable(e1m);
  }

  class Boundaries {
    const ydim: nat
    const xdim: nat
    const boundariesNs: string
    const boundariesEw: string

    // read tables
    const n1: seq<int>
    const s1: seq<int>
    const e1: seq<int>
    const w1: seq<int>
    // move tables
    const n1m: seq<int>
    const s1m: seq<int>
    const e1m: seq<int>
    const w1m: seq<int>
    // downflow tables
    const y1cdwN: seq<int>
    const x1cdwN: seq<int>
    const y1cdwS: seq<int>
    const x1cdwS: seq<int>
    const y1cdwE: seq<int>
    const x1cdwE: seq<int>
    const y1cdwW: seq<int>
    const x1cdwW: seq<int>

    const toxicCoord: int
    var shadloops: int

    /** Lengths of the tables. */
    ghost predicate Valid()
    {
      && ydim > 0 && xdim > 0 && toxicCoord == TOXIC_COORD
      && |n1| == ydim && |s1| == ydim && |n1m| == ydim && |s1m| == ydim
      && |e1| == xdim && |w1| == xdim && |e1m| == xdim && |w1m| == xdim
      && |y1cdwN| == ydim && |y1cdwS| == ydim && |y1cdwE| == ydim && |y1cdwW| == ydim
      && |x1cdwN| == xdim && |x1cdwS| == xdim && |x1cdwE| == xdim && |x1cdwW| == xdim
    }

    /** The tables as the setup code for the two modes leaves them. */
    ghost predicate Specified()
      requires Valid()
    {
      && toxicCoord == TOXIC_COORD
      && AxisTables(boundariesNs, ydim, n1, s1, n1m, s1m, toxicCoord)
      && AxisTables(boundariesEw, xdim, e1, w1, e1m, w1m, toxicCoord)
      && y1cdwN == s1m && y1cdwS == n1m
      && x1cdwE == w1m && x1cdwW == e1m
      && Identity(xdim, x1cdwN) && Identity(xdim, x1cdwS)
      && Identity(ydim, y1cdwE) && Identity(ydim, y1cdwW)
    }

    /** Every read entry indexes the grid and every move entry indexes it or is toxic:
        what the raster filters and the engine rely on. */
    ghost predicate Ready()
      requires Valid()
    {
      && toxicCoord == TOXIC_COORD
      && InRange(ydim, n1) && InRange(ydim, s1)
      && InRange(xdim, e1) && InRange(xdim, w1)
      && InRangeOrToxic(ydim, n1m, toxicCoord) && InRangeOrToxic(ydim, s1m, toxicCoord)
      && InRangeOrToxic(xdim, e1m, toxicCoord) && InRangeOrToxic(xdim, w1m, toxicCoord)
    }

    /** init: allocates the tables, sets the toxic coordinate, runs the setup
        of each recognised mode, then the shadloops and downflow setups. A mode
        that is neither "periodic" nor "nonperiodic" leaves its tables as
        allocated. */
    constructor Init(ydimIn: nat, xdimIn: nat, boundariesNsIn: string, boundariesEwIn: string)
      requires ydimIn > 0 && xdimIn > 0
      ensures Valid()
      ensures ydim == ydimIn && xdim == xdimIn
      ensures boundariesNs == boundariesNsIn && boundariesEw == boundariesEwIn
      ensures Specified()
      ensures shadloops == Shadloops(boundariesNs, boundariesEw)
      ensures KnownMode(boundariesNs) && KnownMode(boundariesEw) ==> Ready()
    {
      ydim := ydimIn;
      xdim := xdimIn;
      boundariesNs := boundariesNsIn;
      boundariesEw := boundariesEwIn;
      toxicCoord := TOXIC_COORD;
      var n, s, nm, sm := SetupAxis(boundariesNsIn, ydimIn);
      var e, w, em, wm := SetupAxis(boundariesEwIn, xdimIn);
      shadloops := Shadloops(boundariesNsIn, boundariesEwIn);
      var ydN, xdN, ydS, xdS, ydE, xdE, ydW, xdW := SetupDownflowArrays(ydimIn, xdimIn, nm, sm, em, wm);
      n1, s1, e1, w1, n1m, s1m, e1m, w1m := n[..], s[..], e[..], w[..], nm[..], sm[..], em[..], wm[..];
      y1cdwN, x1cdwN, y1cdwS, x1cdwS := ydN[..], xdN[..], ydS[..], xdS[..];
      y1cdwE, x1cdwE, y1cdwW, x1cdwW := ydE[..], xdE[..], ydW[..], xdW[..];
      new;
      if KnownMode(boundariesNs) && KnownMode(boundariesEw) {
        ReadTablesInRange(boundariesNs, ydim, n1, s1, n1m, s1m, toxicCoord);
        MoveTablesInRangeOrToxic(boundariesNs, ydim, n1, s1, n1m, s1m, toxicCoord);
        ReadTablesInRange(boundariesEw, xdim, e1, w1, e1m, w1m, toxicCoord);
        MoveTablesInRangeOrToxic(boundariesEw, xdim, e1, w1, e1m, w1m, toxicCoord);
      }
    }
  }
}
