/** `FTICRResult.average_by_lambda_bins` (lib/ThermoStoichWizard/ThermoStoichiometry.py:239-272):
    the compounds are sorted into equal-width bins of their lambda (numpy `linspace` edges,
    pandas `cut` with right-closed intervals) and the element counts and lambdas of each bin are
    averaged (pandas `groupby(...).mean()`). */
module Binning {
  import opened Common
  import opened Text
  import opened Formula

  /** The exceptions `average_by_lambda_bins` can raise. */
  datatype BinError =
    | CutoffOutOfRange  // AssertionError: cutoff must be 0 <= cutoff < 100
    | NonPositiveBins   // AssertionError: n_bins must be 0 < n_bins
    | NotRun            // AttributeError: `thermo` does not exist before `run`
    | EmptyLambdas      // an empty table: the lambda column's `apply` raises ValueError,
                        // as would np.percentile and np.amax of the empty column
    | NonFiniteMax      // an inf or NaN lambda_O2 when the cutoff is zero
    | EdgesDecrease     // ValueError from pd.cut: bins must increase monotonically
    | DuplicateEdges    // ValueError from pd.cut: bin edges must be unique

  /** One row of the returned table: the bin label, the mean C, H, N, O, P and S counts and the
      mean lambda of the compounds in the bin (None, pandas' NaN, for an empty bin), and the Na
      and C13 columns, which are set to 0. */
  datatype BinRow = BinRow(binClass: string, meanElements: seq<Option<real>>, meanLambda: Option<real>, na: int, c13: int)

  // ---------------------------------------------------------------------------------------
  // Bin edges

  /** `np.linspace(lo, hi, n + 1)`: n + 1 edges a step of (hi - lo) / n apart; numpy stores
      the last edge as `hi` itself. */
  function Linspace(lo: real, hi: real, n: nat): (e: seq<real>)
    requires n > 0
    ensures |e| == n + 1 && e[0] == lo && e[n] == hi
  {
    var step := (hi - lo) / n as real;
    seq(n + 1, k requires 0 <= k <= n => if k == n then hi else lo + k as real * step)
  }

  /** Consecutive edges are exactly one step apart. */
  lemma LinspaceStep(lo: real, hi: real, n: nat, k: nat)
    requires n > 0 && k < n
    ensures Linspace(lo, hi, n)[k + 1] - Linspace(lo, hi, n)[k] == (hi - lo) / n as real
  {
    var step := (hi - lo) / n as real;
    var e := Linspace(lo, hi, n);
    assert e[k] == lo + k as real * step;
    if k + 1 < n {
      assert e[k + 1] == lo + (k + 1) as real * step;
      assert (k + 1) as real * step == k as real * step + step;
    } else {
      assert step * n as real == hi - lo;
      assert (k + 1) as real * step == k as real * step + step;
    }
  }

  ghost predicate NonDecreasing(e: seq<real>)
  {
    forall i, j :: 0 <= i <= j < |e| ==> e[i] <= e[j]
  }

  ghost predicate Increasing(e: seq<real>)
  {
    forall i, j :: 0 <= i < j < |e| ==> e[i] < e[j]
  }

  /** The edges are strictly increasing when lo < hi, all equal to lo when lo == hi, and the
      second edge is below the first when hi < lo. */
  lemma LinspaceOrder(lo: real, hi: real, n: nat)
    requires n > 0
    ensures lo < hi ==> Increasing(Linspace(lo, hi, n))
    ensures lo == hi ==> forall k :: 0 <= k <= n ==> Linspace(lo, hi, n)[k] == lo
    ensures hi < lo ==> Linspace(lo, hi, n)[1] < Linspace(lo, hi, n)[0]
  {
    var e := Linspace(lo, hi, n);
    var step := (hi - lo) / n as real;
    forall k | 0 <= k < n
      ensures e[k + 1] - e[k] == step
    {
      LinspaceStep(lo, hi, n, k);
    }
    if lo < hi {
      assert step > 0.0;
      forall i, j | 0 <= i < j < |e|
        ensures e[i] < e[j]
      {
        IncreasingSteps(e, step, i, j);
      }
    }
    if lo == hi {
      assert step == 0.0;
      forall k | 0 <= k <= n
        ensures e[k] == lo
      {
        ConstantSteps(e, k);
      }
    }
  }

  lemma {:induction false} IncreasingSteps(e: seq<real>, step: real, i: nat, j: nat)
    requires step > 0.0 && forall k :: 0 <= k < |e| - 1 ==> e[k + 1] - e[k] == step
    requires i < j < |e|
    ensures e[i] < e[j]
    decreases j - i
  {
    if i + 1 < j {
      IncreasingSteps(e, step, i + 1, j);
    }
  }

  lemma {:induction false} ConstantSteps(e: seq<real>, k: nat)
    requires |e| > 0 && forall i :: 0 <= i < |e| - 1 ==> e[i + 1] - e[i] == 0.0
    requires k < |e|
    ensures e[k] == e[0]
  {
    if k > 0 {
      ConstantSteps(e, k - 1);
    }
  }

  // ---------------------------------------------------------------------------------------
  // pd.cut

  /** `edges.searchsorted(x, side='left')`: the number of leading edges below x. */
  function CountBelow(edges: seq<real>, x: real): (j: nat)
    ensures j <= |edges|
    ensures forall i :: 0 <= i < j ==> edges[i] < x
    ensures j < |edges| ==> x <= edges[j]
  {
    if edges == [] || x <= edges[0] then 0 else 1 + CountBelow(edges[1..], x)
  }

  /** `pd.cut(x, edges)` with right-closed intervals, for one value: the searchsorted position
      minus one, and no bin (a null Class) for an inf or NaN value and for a value at or below
      the first edge or above the last. */
  function Cut(edges: seq<real>, x: Finite<real>): (b: Option<nat>)
    ensures b.Some? ==> x.Finite? && b.value + 1 < |edges|
  {
    match x
    case InfOrNaN => None
    case Finite(v) =>
      var j := CountBelow(edges, v);
      if j == 0 || j == |edges| then None else Some(j - 1)
  }

  /** With non-decreasing edges, a value falls into bin k exactly when it is finite and lies in
      the interval (edges[k], edges[k + 1]]. */
  lemma CutSpec(edges: seq<real>, x: Finite<real>, k: nat)
    requires NonDecreasing(edges)
    ensures Cut(edges, x) == Some(k) <==>
      x.Finite? && k + 1 < |edges| && edges[k] < x.value <= edges[k + 1]
  {
    if x.Finite? && k + 1 < |edges| && edges[k] < x.value <= edges[k + 1] {
      var j := CountBelow(edges, x.value);
      assert forall i :: 0 <= i <= k ==> edges[i] < x.value;
      assert j == k + 1;
    }
  }

  /** With strictly increasing edges every finite value in (edges[0], edges[last]] falls into
      some bin; values outside that interval, the lower edge included, fall into none. */
  lemma CutCovers(edges: seq<real>, x: Finite<real>)
    requires Increasing(edges) && |edges| >= 2
    ensures x.Finite? && edges[0] < x.value <= edges[|edges| - 1] ==> Cut(edges, x).Some?
    ensures x.Finite? && (x.value <= edges[0] || edges[|edges| - 1] < x.value) ==> Cut(edges, x).None?
  {
    if x.Finite? {
      var j := CountBelow(edges, x.value);
      if edges[0] < x.value <= edges[|edges| - 1] {
        assert j != 0;
        assert j != |edges|;
      }
    }
  }

  // ---------------------------------------------------------------------------------------
  // groupby('Class').mean()

  /** Positions, among the first `m` lambdas, of the compounds in bin `k`, in order. */
  function MembersPrefix(ls: seq<Finite<real>>, edges: seq<real>, k: nat, m: nat): (idx: seq<nat>)
    requires m <= |ls|
    ensures forall j :: 0 <= j < |idx| ==> idx[j] < m && Cut(edges, ls[idx[j]]) == Some(k)
    ensures forall i :: 0 <= i < m && Cut(edges, ls[i]) == Some(k) ==> i in idx
    ensures forall j1, j2 :: 0 <= j1 < j2 < |idx| ==> idx[j1] < idx[j2]
  {
    if m == 0 then []
    else MembersPrefix(ls, edges, k, m - 1) + (if Cut(edges, ls[m - 1]) == Some(k) then [m - 1] else [])
  }

  /** The rows of bin `k`. */
  function Members(ls: seq<Finite<real>>, edges: seq<real>, k: nat): seq<nat>
  {
    MembersPrefix(ls, edges, k, |ls|)
  }

  function Sum(xs: seq<real>): real
  {
    if xs == [] then 0.0 else Sum(xs[..|xs| - 1]) + xs[|xs| - 1]
  }

  /** pandas' mean: NaN (None) for no values. */
  function Mean(xs: seq<real>): (m: Option<real>)
    ensures m.None? <==> xs == []
  {
    if xs == [] then None else Some(Sum(xs) / |xs| as real)
  }

  lemma {:induction false} SumBounds(xs: seq<real>, a: real, b: real)
    requires forall i :: 0 <= i < |xs| ==> a <= xs[i] <= b
    ensures |xs| as real * a <= Sum(xs) <= |xs| as real * b
  {
    if xs != [] {
      SumBounds(xs[..|xs| - 1], a, b);
    }
  }

  lemma {:induction false} SumAbove(xs: seq<real>, a: real)
    requires xs != [] && forall i :: 0 <= i < |xs| ==> a < xs[i]
    ensures |xs| as real * a < Sum(xs)
  {
    if |xs| > 1 {
      SumAbove(xs[..|xs| - 1], a);
    }
  }

  /** The mean of values within [a, b] is within [a, b]. */
  lemma MeanBounds(xs: seq<real>, a: real, b: real)
    requires xs != [] && forall i :: 0 <= i < |xs| ==> a <= xs[i] <= b
    ensures a <= Mean(xs).value <= b
  {
    SumBounds(xs, a, b);
    QuotientBounds(Sum(xs), |xs| as real, a, b);
  }

  /** The mean of values above a is above a. */
  lemma MeanAbove(xs: seq<real>, a: real)
    requires xs != [] && forall i :: 0 <= i < |xs| ==> a < xs[i]
    ensures a < Mean(xs).value
  {
    SumAbove(xs, a);
    QuotientAbove(Sum(xs), |xs| as real, a);
  }

  lemma QuotientBounds(s: real, n: real, a: real, b: real)
    requires n > 0.0 && n * a <= s <= n * b
    ensures a <= s / n <= b
  {
  }

  lemma QuotientAbove(s: real, n: real, a: real)
    requires n > 0.0 && n * a < s
    ensures a < s / n
  {
  }

  /** Column `e` (C, H, N, O, P, S in that order) of the rows at positions `idx`. */
  function ElementValues(counts: seq<Counts>, idx: seq<nat>, e: nat): (xs: seq<real>)
    requires e < 6 && forall j :: 0 <= j < |idx| ==> idx[j] < |counts|
    ensures |xs| == |idx|
  {
    seq(|idx|, j requires 0 <= j < |idx| => counts[idx[j]][e] as real)
  }

  /** The lambdas of the rows at positions `idx`, which are finite. */
  function LambdaValues(ls: seq<Finite<real>>, idx: seq<nat>): (xs: seq<real>)
    requires forall j :: 0 <= j < |idx| ==> idx[j] < |ls| && ls[idx[j]].Finite?
    ensures |xs| == |idx|
  {
    seq(|idx|, j requires 0 <= j < |idx| => ls[idx[j]].value)
  }

  /** `'Bin{}'.format(k + 1)` */
  function BinLabel(k: nat): string
  {
    "Bin" + NatToString(k + 1)
  }

  /** Distinct bins have distinct labels. */
  lemma BinLabelInjective(k1: nat, k2: nat)
    ensures BinLabel(k1) == BinLabel(k2) <==> k1 == k2
  {
    if BinLabel(k1) == BinLabel(k2) {
      assert NatToString(k1 + 1) == BinLabel(k1)[3..];
      assert NatToString(k2 + 1) == BinLabel(k2)[3..];
      NatToStringInjective(k1 + 1, k2 + 1);
    }
  }

  /** The row of bin `k`, given each compound's element counts and lambda. */
  function BinRowOf(counts: seq<Counts>, ls: seq<Finite<real>>, edges: seq<real>, k: nat): BinRow
    requires |counts| == |ls|
  {
    var idx := Members(ls, edges, k);
    BinRow(BinLabel(k),
           seq(6, e requires 0 <= e < 6 => Mean(ElementValues(counts, idx, e))),
           Mean(LambdaValues(ls, idx)), 0, 0)
  }

  // ---------------------------------------------------------------------------------------
  // The whole computation

  predicate AllFinite(xs: seq<Finite<real>>)
  {
    forall i :: 0 <= i < |xs| ==> xs[i].Finite?
  }

  /** `np.amax` of finite values: the largest of them. */
  function MaxOf(xs: seq<Finite<real>>): (m: real)
    requires xs != [] && AllFinite(xs)
    ensures forall i :: 0 <= i < |xs| ==> xs[i].value <= m
    ensures exists i :: 0 <= i < |xs| && xs[i].value == m
  {
    if |xs| == 1 then xs[0].value
    else
      var rest := MaxOf(xs[1..]);
      assert forall i :: 1 <= i < |xs| ==> xs[i] == xs[1..][i - 1];
      if xs[0].value < rest then rest else xs[0].value
  }

  /** The lambda interval the bins cover: the percentiles `pLo` and `pHi` of the lambda_O2
      column for a positive cutoff; for a zero cutoff, 0 up to the largest lambda_O2.  An empty
      column fails at every cutoff. */
  function LambdaRange(cutoff: real, thermoLambdas: seq<Finite<real>>, pLo: real, pHi: real)
    : (r: Result<(real, real), BinError>)
    requires cutoff >= 0.0
    ensures thermoLambdas == [] ==> r == Failure(EmptyLambdas)
    ensures cutoff > 0.0 && thermoLambdas != [] ==> r == Success((pLo, pHi))
    ensures cutoff == 0.0 && thermoLambdas != [] && !AllFinite(thermoLambdas) ==> r == Failure(NonFiniteMax)
    ensures cutoff == 0.0 && r.Success? ==>
      r.value.0 == 0.0 && thermoLambdas != [] && AllFinite(thermoLambdas) &&
      (forall i :: 0 <= i < |thermoLambdas| ==> thermoLambdas[i].value <= r.value.1) &&
      (exists i :: 0 <= i < |thermoLambdas| && thermoLambdas[i].value == r.value.1)
  {
    if thermoLambdas == [] then Failure(EmptyLambdas)
    else if cutoff > 0.0 then Success((pLo, pHi))
    else if !AllFinite(thermoLambdas) then Failure(NonFiniteMax)
    else Success((0.0, MaxOf(thermoLambdas)))
  }

  /** pd.cut into `n` bins over [lo, hi] and the mean of every bin, in bin order; pd.cut
      rejects decreasing edges and, unless there is a single bin, repeated edges. */
  function BinMeans(counts: seq<Counts>, ls: seq<Finite<real>>, lo: real, hi: real, n: nat)
    : (r: Result<seq<BinRow>, BinError>)
    requires n > 0 && |counts| == |ls|
    ensures hi < lo <==> r == Failure(EdgesDecrease)
    ensures hi == lo && n >= 2 <==> r == Failure(DuplicateEdges)
    ensures r.Success? ==> |r.value| == n
  {
    if hi < lo then Failure(EdgesDecrease)
    else if hi == lo && n >= 2 then Failure(DuplicateEdges)
    else
      var edges := Linspace(lo, hi, n);
      Success(seq(n, k requires 0 <= k < n => BinRowOf(counts, ls, edges, k)))
  }

  /** `average_by_lambda_bins` once `run` has produced the results: `counts` and `ls` are each
      compound's element counts and lambda_O2, `thermoLambdas` the lambda_O2 column of the
      formula-keyed `thermo` table, and `pLo`, `pHi` that column's `cutoff` and
      `100 - cutoff` percentiles.  The two assertions are checked first, then the interval's
      failure is passed on; a success has one row per bin of the evenly spaced,
      non-decreasing edges over the interval, row k being bin k's row (see BinRowSpec). */
  function AverageByLambdaBins(counts: seq<Counts>, ls: seq<Finite<real>>, thermoLambdas: seq<Finite<real>>,
                               nBins: int, cutoff: real, pLo: real, pHi: real)
    : (r: Result<seq<BinRow>, BinError>)
    requires |counts| == |ls|
    ensures !(0.0 <= cutoff < 100.0) ==> r == Failure(CutoffOutOfRange)
    ensures 0.0 <= cutoff < 100.0 && nBins <= 0 ==> r == Failure(NonPositiveBins)
    ensures 0.0 <= cutoff < 100.0 && nBins > 0 && LambdaRange(cutoff, thermoLambdas, pLo, pHi).Failure? ==>
      r == Failure(LambdaRange(cutoff, thermoLambdas, pLo, pHi).error)
    ensures 0.0 <= cutoff < 100.0 && nBins > 0 && LambdaRange(cutoff, thermoLambdas, pLo, pHi).Success? ==>
      var (lo, hi) := LambdaRange(cutoff, thermoLambdas, pLo, pHi).value;
      (hi < lo <==> r == Failure(EdgesDecrease)) &&
      (hi == lo && nBins >= 2 <==> r == Failure(DuplicateEdges))
    ensures r.Success? ==>
      0.0 <= cutoff < 100.0 && LambdaRange(cutoff, thermoLambdas, pLo, pHi).Success? &&
      var (lo, hi) := LambdaRange(cutoff, thermoLambdas, pLo, pHi).value;
      lo <= hi && |r.value| == nBins && NonDecreasing(Linspace(lo, hi, nBins)) &&
      forall k :: 0 <= k < nBins ==> r.value[k] == BinRowOf(counts, ls, Linspace(lo, hi, nBins), k)
  {
    if !(0.0 <= cutoff < 100.0) then Failure(CutoffOutOfRange)
    else if nBins <= 0 then Failure(NonPositiveBins)
    else
      match LambdaRange(cutoff, thermoLambdas, pLo, pHi)
      case Failure(e) => Failure(e)
      case Success((lo, hi)) =>
        LinspaceOrder(lo, hi, nBins);
        BinMeans(counts, ls, lo, hi, nBins)
  }

  /** Compound `i` has a finite lambda in the interval (edges[k], edges[k + 1]] of bin `k`. */
  ghost predicate InBin(ls: seq<Finite<real>>, edges: seq<real>, k: nat, i: nat)
  {
    i < |ls| && ls[i].Finite? && k + 1 < |edges| && edges[k] < ls[i].value <= edges[k + 1]
  }

  /** Every count of element `e` among the compounds of bin `k` lies in [a, b]. */
  ghost predicate CountsWithin(counts: seq<Counts>, ls: seq<Finite<real>>, edges: seq<real>, k: nat, e: nat, a: int, b: int)
    requires e < 6
  {
    forall i: nat :: InBin(ls, edges, k, i) && i < |counts| ==> a <= counts[i][e] <= b
  }

  /** With non-decreasing edges the rows of bin `k` are exactly the compounds whose lambda is
      finite and in (edges[k], edges[k + 1]]. */
  lemma MembersSpec(ls: seq<Finite<real>>, edges: seq<real>, k: nat)
    requires NonDecreasing(edges)
    ensures forall i: nat :: i in Members(ls, edges, k) <==> InBin(ls, edges, k, i)
  {
    forall i: nat | i < |ls|
      ensures i in Members(ls, edges, k) <==> InBin(ls, edges, k, i)
    {
      CutSpec(edges, ls[i], k);
    }
  }

  /** The row of bin `k`: labelled Bin(k + 1) with Na and C13 set to 0; its means are None
      exactly when the bin has no compound; otherwise its mean lambda lies in the bin's interval
      and each mean element count lies within any bounds on that element's counts in the bin. */
  lemma BinRowSpec(counts: seq<Counts>, ls: seq<Finite<real>>, edges: seq<real>, k: nat)
    requires |counts| == |ls| && NonDecreasing(edges) && k + 1 < |edges|
    ensures var row := BinRowOf(counts, ls, edges, k);
      row.binClass == BinLabel(k) && row.na == 0 && row.c13 == 0 && |row.meanElements| == 6 &&
      (row.meanLambda.None? <==> forall i: nat :: !InBin(ls, edges, k, i)) &&
      (forall e :: 0 <= e < 6 ==> (row.meanElements[e].None? <==> row.meanLambda.None?)) &&
      (row.meanLambda.Some? ==> edges[k] < row.meanLambda.value <= edges[k + 1])
    ensures var row := BinRowOf(counts, ls, edges, k);
      forall e, a: int, b: int ::
        0 <= e < 6 && row.meanLambda.Some? && CountsWithin(counts, ls, edges, k, e, a, b) ==>
        a as real <= row.meanElements[e].value <= b as real
  {
    var idx := Members(ls, edges, k);
    var row := BinRowOf(counts, ls, edges, k);
    MembersSpec(ls, edges, k);
    if idx != [] {
      var xs := LambdaValues(ls, idx);
      assert forall j :: 0 <= j < |idx| ==> InBin(ls, edges, k, idx[j]);
      MeanAbove(xs, edges[k]);
      MeanBounds(xs, edges[k], edges[k + 1]);
      forall e, a: int, b: int | 0 <= e < 6 && CountsWithin(counts, ls, edges, k, e, a, b)
        ensures a as real <= row.meanElements[e].value <= b as real
      {
        MeanBounds(ElementValues(counts, idx, e), a as real, b as real);
      }
    }
  }

  /** Row k of a successful binning is the row of bin k over the linspace edges, and those
      edges are non-decreasing, so BinRowSpec describes it. */
  lemma BinMeansRows(counts: seq<Counts>, ls: seq<Finite<real>>, lo: real, hi: real, n: nat, k: nat)
    requires n > 0 && |counts| == |ls| && BinMeans(counts, ls, lo, hi, n).Success? && k < n
    ensures NonDecreasing(Linspace(lo, hi, n))
    ensures BinMeans(counts, ls, lo, hi, n).value[k] == BinRowOf(counts, ls, Linspace(lo, hi, n), k)
  {
    LinspaceOrder(lo, hi, n);
  }

  /** With lo < hi, each compound with a finite lambda in (lo, hi] is in exactly one bin, the
      one whose interval holds its lambda; every other compound is in none. */
  lemma BinsPartition(ls: seq<Finite<real>>, lo: real, hi: real, n: nat, i: nat)
    requires n > 0 && lo < hi && i < |ls|
    ensures var edges := Linspace(lo, hi, n);
      (ls[i].Finite? && lo < ls[i].value <= hi ==>
         exists k :: 0 <= k < n && i in Members(ls, edges, k) &&
           forall k' :: 0 <= k' < n && i in Members(ls, edges, k') ==> k' == k)
    ensures var edges := Linspace(lo, hi, n);
      (ls[i].InfOrNaN? || ls[i].value <= lo || hi < ls[i].value) ==>
         forall k :: 0 <= k < n ==> i !in Members(ls, edges, k)
  {
    var edges := Linspace(lo, hi, n);
    LinspaceOrder(lo, hi, n);
    CutCovers(edges, ls[i]);
    if ls[i].Finite? && lo < ls[i].value <= hi {
      var k := Cut(edges, ls[i]).value;
      assert i in Members(ls, edges, k);
    }
  }
}
