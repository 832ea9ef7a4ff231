/** The poll sequence (tb_poll): a random visiting order of the cells of a
    ydim x xdim grid, sampled without replacement by a Fisher-Yates shuffle.

    The random integers the shuffle draws are a parameter: `draws[k]` is the
    value the k-th call of the generator returns. */
module Poll {

  /** [0, 1, ..., n - 1], the order in which init lays out the vector coordinates. */
  function Iota(n: nat): (r: seq<int>)
    ensures |r| == n
    ensures forall i :: 0 <= i < n ==> r[i] == i
  {
    if n == 0 then [] else Iota(n - 1) + [n - 1]
  }

  /** `s` with positions a and b exchanged. */
  function Swap(s: seq<int>, a: nat, b: nat): (r: seq<int>)
    requires a < |s| && b < |s|
    ensures |r| == |s|
  {
    seq(|s|, j requires 0 <= j < |s| => if j == b then s[a] else if j == a then s[b] else s[j])
  }

  /** The index a draw picks among 0..i: the draw reduced modulo i + 1,
      written as repeated subtraction. */
  function Pick(draw: nat, i: nat): (r: nat)
    ensures r <= i
    decreases draw
  {
    if draw <= i then draw else Pick(draw - (i + 1), i)
  }

  lemma {:induction false} PickIsMod(draw: nat, i: nat)
    ensures Pick(draw, i) == draw % (i + 1)
    decreases draw
  {
    if draw > i {
      PickIsMod(draw - (i + 1), i);
      DivModUnique(draw, i + 1, (draw - (i + 1)) / (i + 1) + 1, Pick(draw, i));
    } else {
      DivModUnique(draw, i + 1, 0, draw);
    }
  }

  /** One shuffle step at index i: exchange it with index draw % (i + 1). */
  function Step(t: seq<int>, draw: nat, i: nat): (r: seq<int>)
    requires i < |t|
    ensures |r| == |t|
  {
    Swap(t, Pick(draw, i), i)
  }

  /** Vector coordinates after the first k shuffle steps: step k (counting from
      0) works on index |s| - 1 - k with the k-th draw. */
  function Steps(s: seq<int>, draws: seq<nat>, k: nat): (r: seq<int>)
    requires k <= |s| && |draws| >= k
    ensures |r| == |s|
    decreases k
  {
    if k == 0 then s
    else Step(Steps(s, draws, k - 1), draws[k - 1], |s| - k)
  }

  /** The vector coordinates after a whole calc_new_sequence. */
  function Shuffle(s: seq<int>, draws: seq<nat>): seq<int>
    requires |draws| >= |s|
  {
    Steps(s, draws, |s|)
  }

  /** Exchanging two positions keeps the multiset of values. */
  lemma SwapPermutes(s: seq<int>, a: nat, b: nat)
    requires a < |s| && b < |s|
    ensures multiset(Swap(s, a, b)) == multiset(s)
    ensures forall j :: 0 <= j < |s| && j != a && j != b ==> Swap(s, a, b)[j] == s[j]
  {
    var t := s[a := s[b]];
    assert multiset(t) == multiset(s) - multiset{s[a]} + multiset{s[b]};
    assert multiset(t[b := s[a]]) == multiset(t) - multiset{t[b]} + multiset{s[a]};
    if a != b {
      assert t[b] == s[b];
    }
    assert Swap(s, a, b) == t[b := s[a]];
  }

  /** One step only exchanges two values and leaves the suffix beyond i alone. */
  lemma StepPermutes(t: seq<int>, draw: nat, i: nat)
    requires i < |t|
    ensures multiset(Step(t, draw, i)) == multiset(t)
    ensures forall j :: i < j < |t| ==> Step(t, draw, i)[j] == t[j]
  {
    SwapPermutes(t, Pick(draw, i), i);
  }

  /** The shuffle only reorders the vector coordinates. */
  lemma {:induction false} StepsPermutes(s: seq<int>, draws: seq<nat>, k: nat)
    requires k <= |s| && |draws| >= k
    ensures multiset(Steps(s, draws, k)) == multiset(s)
  {
    if k > 0 {
      var t := Steps(s, draws, k - 1);
      var u := Step(t, draws[k - 1], |s| - k);
      assert Steps(s, draws, k) == u;
      StepsPermutes(s, draws, k - 1);
      StepPermutes(t, draws[k - 1], |s| - k);
      assert multiset(u) == multiset(t);
    } else {
      assert Steps(s, draws, k) == s;
    }
  }

  /** Once the step index has passed position j, the value at j is final: the
      suffix already chosen is never drawn again (sampling without replacement). */
  lemma {:induction false} StepsFreezeSuffix(s: seq<int>, draws: seq<nat>, k: nat, k': nat, j: nat)
    requires k <= k' <= |s| && |draws| >= k'
    requires |s| - k <= j < |s|
    ensures Steps(s, draws, k')[j] == Steps(s, draws, k)[j]
    decreases k' - k
  {
    if k' > k {
      StepsFreezeSuffix(s, draws, k, k' - 1, j);
      StepPermutes(Steps(s, draws, k' - 1), draws[k' - 1], |s| - k');
    }
  }

  /** Each of 0..n-1 occurs exactly once in Iota(n), and nothing else occurs. */
  lemma {:induction false} IotaCounts(n: nat, v: int)
    ensures multiset(Iota(n))[v] == if 0 <= v < n then 1 else 0
  {
    if n > 0 {
      IotaCounts(n - 1, v);
      assert multiset(Iota(n)) == multiset(Iota(n - 1)) + multiset{n - 1};
    }
  }

  /** Two equal entries at different positions give the value a count of two. */
  lemma RepeatCounts(vs: seq<int>, i: nat, j: nat)
    requires i < j < |vs| && vs[i] == vs[j]
    ensures multiset(vs)[vs[i]] >= 2
  {
    assert vs == vs[..i] + [vs[i]] + vs[i + 1..j] + [vs[j]] + vs[j + 1..];
  }

  /** Whether some visit of the poll lands on cell (y, x). */
  ghost predicate Visited(ys: seq<int>, xs: seq<int>, y: int, x: int)
    requires |ys| == |xs|
  {
    exists i :: 0 <= i < |ys| && ys[i] == y && xs[i] == x
  }

  /** The poll visits every cell of the grid exactly once. */
  ghost predicate EachCellOnce(ydim: nat, xdim: nat, ys: seq<int>, xs: seq<int>)
  {
    && |ys| == ydim * xdim && |xs| == ydim * xdim
    && (forall i :: 0 <= i < |ys| ==> 0 <= ys[i] < ydim && 0 <= xs[i] < xdim)
    && (forall i, j :: 0 <= i < j < |ys| ==> ys[i] != ys[j] || xs[i] != xs[j])
    && (forall y, x :: 0 <= y < ydim && 0 <= x < xdim ==> Visited(ys, xs, y, x))
  }

  /** The row a vector coordinate decodes to. */
  function RowOf(v: int, ydim: nat): int
    requires ydim > 0
  {
    v % ydim
  }

  /** The column a vector coordinate decodes to. */
  function ColOf(v: int, ydim: nat): int
    requires ydim > 0
  {
    v / ydim
  }

  /** Decoding is a bijection from [0, ydim * xdim) onto the grid. */
  lemma DecodeInGrid(v: int, ydim: nat, xdim: nat)
    requires ydim > 0 && 0 <= v < ydim * xdim
    ensures 0 <= RowOf(v, ydim) < ydim && 0 <= ColOf(v, ydim) < xdim
    ensures ColOf(v, ydim) * ydim + RowOf(v, ydim) == v
  {
    var q := v / ydim;
    if q >= xdim {
      assert q * ydim >= xdim * ydim by { MulMonoNat(xdim, q, ydim); }
    }
  }

  lemma MulMonoNat(a: int, b: int, d: int)
    requires a <= b && d >= 0
    ensures a * d <= b * d
  {
    assert b * d - a * d == (b - a) * d;
  }

  /** Cell (y, x) is the decoding of x * ydim + y, which lies in [0, ydim * xdim). */
  lemma EncodeInRange(y: int, x: int, ydim: nat, xdim: nat)
    requires 0 <= y < ydim && 0 <= x < xdim
    ensures 0 <= x * ydim + y < ydim * xdim
    ensures RowOf(x * ydim + y, ydim) == y && ColOf(x * ydim + y, ydim) == x
  {
    MulMonoNat(x, xdim - 1, ydim);
    assert (x * ydim + y) / ydim == x && (x * ydim + y) % ydim == y by {
      DivModUnique(x * ydim + y, ydim, x, y);
    }
  }

  lemma DivModUnique(a: int, d: int, q: int, r: int)
    requires d > 0 && 0 <= r < d && a == q * d + r
    ensures a / d == q && a % d == r
  {
    var q', r' := a / d, a % d;
    if q' > q {
      MulMonoNat(q + 1, q', d);
    } else if q' < q {
      MulMonoNat(q', q - 1, d);
    }
  }

  /** Decoding a permutation of 0..ydim*xdim-1 visits every cell exactly once. */
  lemma PermutationVisitsEachCellOnce(vs: seq<int>, ydim: nat, xdim: nat, ys: seq<int>, xs: seq<int>)
    requires ydim > 0
    requires multiset(vs) == multiset(Iota(ydim * xdim))
    requires |ys| == |vs| && |xs| == |vs|
    requires forall i :: 0 <= i < |vs| ==> ys[i] == RowOf(vs[i], ydim) && xs[i] == ColOf(vs[i], ydim)
    ensures EachCellOnce(ydim, xdim, ys, xs)
  {
    var n := ydim * xdim;
    assert |vs| == n by {
      assert |multiset(vs)| == |multiset(Iota(n))|;
    }
    forall i | 0 <= i < |vs|
      ensures 0 <= vs[i] < n
    {
      assert vs[i] in multiset(vs);
      IotaCounts(n, vs[i]);
    }
    forall i | 0 <= i < |ys|
      ensures 0 <= ys[i] < ydim && 0 <= xs[i] < xdim
    {
      DecodeInGrid(vs[i], ydim, xdim);
    }
    forall i, j | 0 <= i < j < |ys|
      ensures ys[i] != ys[j] || xs[i] != xs[j]
    {
      if ys[i] == ys[j] && xs[i] == xs[j] {
        DecodeInGrid(vs[i], ydim, xdim);
        DecodeInGrid(vs[j], ydim, xdim);
        assert vs[i] == vs[j];
        RepeatCounts(vs, i, j);
        IotaCounts(n, vs[i]);
        assert false;
      }
    }
    forall y, x | 0 <= y < ydim && 0 <= x < xdim
      ensures Visited(ys, xs, y, x)
    {
      var v := x * ydim + y;
      EncodeInRange(y, x, ydim, xdim);
      IotaCounts(n, v);
      assert v in multiset(vs);
      var i :| 0 <= i < |vs| && vs[i] == v;
      assert ys[i] == y && xs[i] == x;
    }
  }

  class Poll {
    const ydim: nat
    const xdim: nat
    const len: nat
    const ys: array<int>
    const xs: array<int>
    const vcoords: array<int>

    /** Lengths and distinctness of the three vectors. */
    ghost predicate Valid()
    {
      && len == ydim * xdim
      && ys.Length == len && xs.Length == len && vcoords.Length == len
      && ys != xs && ys != vcoords && xs != vcoords
    }

    /** The vector coordinates are a permutation of 0..len-1. */
    ghost predicate Permuted()
      reads vcoords
    {
      multiset(vcoords[..]) == multiset(Iota(len))
    }

    /** The lookup vectors hold the decoding of the vector coordinates. */
    ghost predicate Decoded()
      reads ys, xs, vcoords
      requires Valid()
    {
      ydim > 0 ==> forall i :: 0 <= i < len ==> ys[i] == RowOf(vcoords[i], ydim) && xs[i] == ColOf(vcoords[i], ydim)
    }

    /** init: the vector coordinates start as 0..len-1 and are then shuffled
        with the first len draws. */
    constructor Init(ydimIn: nat, xdimIn: nat, draws: seq<nat>)
      requires |draws| >= ydimIn * xdimIn
      ensures Valid() && Permuted() && Decoded()
      ensures ydim == ydimIn && xdim == xdimIn
      ensures fresh(ys) && fresh(xs) && fresh(vcoords)
      ensures vcoords[..] == Shuffle(Iota(len), draws)
      ensures EachCellOnce(ydim, xdim, ys[..], xs[..])
    {
      var n := ydimIn * xdimIn;
      ydim := ydimIn;
      xdim := xdimIn;
      len := n;
      ys := new int[n];
      xs := new int[n];
      vcoords := new int[n];
      new;
      for i := 0 to n
        invariant forall k :: 0 <= k < i ==> vcoords[k] == k
      {
        vcoords[i] := i;
      }
      assert vcoords[..] == Iota(n);
      CalcNewSequence(draws);
    }

    /** calc_new_sequence: shuffles the vector coordinates from the last index
        down to the first, then decodes each into its row (remainder by ydim)
        and column (quotient by ydim). */
    method CalcNewSequence(draws: seq<nat>)
      requires Valid() && Permuted()
      requires |draws| >= len
      modifies ys, xs, vcoords
      ensures Permuted() && Decoded()
      ensures vcoords[..] == Shuffle(old(vcoords[..]), draws)
      ensures EachCellOnce(ydim, xdim, ys[..], xs[..])
    {
      ghost var s0 := vcoords[..];
      var i: int := len - 1;
      while i > -1
        invariant -1 <= i < len
        invariant vcoords[..] == Steps(s0, draws, len - 1 - i)
      {
        ghost var before := vcoords[..];
        var r := draws[len - 1 - i] % (i + 1);
        PickIsMod(draws[len - 1 - i], i);
        Exchange(r, i);
        assert Steps(s0, draws, len - i) == Step(before, draws[len - 1 - i], i);
        i := i - 1;
      }
      StepsPermutes(s0, draws, len);
      DecodeAll(draws);
    }

    /** The swap in the shuffle loop of calc_new_sequence. */
    method Exchange(r: nat, i: nat)
      requires Valid() && r < len && i < len
      modifies vcoords
      ensures vcoords[..] == Swap(old(vcoords[..]), r, i)
    {
      var rval := vcoords[r];
      vcoords[r] := vcoords[i];
      vcoords[i] := rval;
    }

    /** The decoding loop of calc_new_sequence. */
    method DecodeAll(ghost draws: seq<nat>)
      requires Valid() && Permuted()
      modifies ys, xs
      ensures Decoded()
      ensures EachCellOnce(ydim, xdim, ys[..], xs[..])
    {
      for k := 0 to len
        invariant forall j :: 0 <= j < k ==> ydim > 0 && ys[j] == RowOf(vcoords[j], ydim) && xs[j] == ColOf(vcoords[j], ydim)
      {
        assert ydim > 0;
        xs[k] := vcoords[k] / ydim;
        ys[k] := vcoords[k] % ydim;
      }
      if ydim > 0 {
        PermutationVisitsEachCellOnce(vcoords[..], ydim, xdim, ys[..], xs[..]);
      }
    }
  }
}
