/** Averages over exact reals: the mean energy of a list of entries
    (`reduce((acc, e) => acc + e.energy, 0) / length`) and the trend chart's mean
    over positive bucket values only. */
module Stats {
  import opened Types
  import opened Seqs

  /** The sum of the entries' energy values. */
  function EnergySum(es: seq<Entry>): (n: int)
    ensures |es| <= n <= 5 * |es|
  {
    if |es| == 0 then 0 else EnergySum(es[..|es| - 1]) + es[|es| - 1].energy.Value()
  }

  /** The arithmetic mean of the entries' energies, `0` for no entries. */
  function MeanEnergy(es: seq<Entry>): (r: real)
    ensures |es| == 0 ==> r == 0.0
    ensures |es| > 0 ==> 1.0 <= r <= 5.0
    ensures r * |es| as real == EnergySum(es) as real
  {
    if |es| == 0 then
      assert EnergySum(es) == 0 && 0.0 * |es| as real == 0.0;
      0.0
    else
      IntMean(EnergySum(es), |es|);
      EnergySum(es) as real / |es| as real
  }

  /** A sum of `n` values from `1` to `5` has its mean in `[1, 5]`. */
  lemma IntMean(s: int, n: int)
    requires 0 < n <= s <= 5 * n
    ensures 1.0 <= s as real / n as real <= 5.0
    ensures (s as real / n as real) * n as real == s as real
  {
    MeanBounds(s as real, n as real, 1.0, 5.0);
  }

  /** `lo * n <= s <= hi * n` puts the mean `s / n` between `lo` and `hi`. */
  lemma MeanBounds(s: real, n: real, lo: real, hi: real)
    requires n > 0.0 && lo * n <= s <= hi * n
    ensures lo <= s / n <= hi
    ensures (s / n) * n == s
  {
    assert (s / n) * n == s;
  }

  function Sum(vs: seq<real>): real {
    if |vs| == 0 then 0.0 else Sum(vs[..|vs| - 1]) + vs[|vs| - 1]
  }

  /** A value a chart bucket can hold: empty (`0`) or a mean energy in `[1, 5]`. */
  predicate IsBucketValue(v: real) {
    v == 0.0 || 1.0 <= v <= 5.0
  }

  /** The positive values of `vs`, in order. */
  function Positives(vs: seq<real>): (r: seq<real>)
    ensures forall v :: v in r <==> v in vs && v > 0.0
  {
    Filter(vs, (v: real) => v > 0.0)
  }

  /** The mean of the positive values, or `0` when there are none. */
  function PositiveMean(vs: seq<real>): (r: real)
    ensures Positives(vs) == [] ==> r == 0.0
    ensures Positives(vs) != [] ==> r * |Positives(vs)| as real == Sum(Positives(vs))
  {
    var ps := Positives(vs);
    if |ps| == 0 then 0.0
    else
      assert (Sum(ps) / |ps| as real) * |ps| as real == Sum(ps);
      Sum(ps) / |ps| as real
  }

  /** There are no positives exactly when no value is positive. */
  lemma NoPositives(vs: seq<real>)
    ensures Positives(vs) == [] <==> forall v :: v in vs ==> v <= 0.0
  {
    var ps := Positives(vs);
    if |ps| > 0 {
      assert ps[0] in ps;
    }
  }

  /** The sum of values that all lie in `[lo, hi]` lies in `[lo * n, hi * n]`. */
  lemma {:induction false} SumBounds(vs: seq<real>, lo: real, hi: real)
    requires forall v :: v in vs ==> lo <= v <= hi
    ensures lo * |vs| as real <= Sum(vs) <= hi * |vs| as real
  {
    if |vs| > 0 {
      var init := vs[..|vs| - 1];
      assert forall v :: v in init ==> v in vs;
      assert vs[|vs| - 1] in vs;
      SumBounds(init, lo, hi);
    }
  }

  /** When every value is a bucket value and some value is positive, the positive-only
      mean is itself in `[1, 5]`; when none is positive it is `0`. */
  lemma PositiveMeanRange(vs: seq<real>)
    requires forall v :: v in vs ==> IsBucketValue(v)
    ensures (exists v :: v in vs && v > 0.0) ==> 1.0 <= PositiveMean(vs) <= 5.0
    ensures (forall v :: v in vs ==> v == 0.0) ==> PositiveMean(vs) == 0.0
  {
    var ps := Positives(vs);
    NoPositives(vs);
    if |ps| > 0 {
      assert forall v :: v in ps ==> 1.0 <= v <= 5.0;
      SumBounds(ps, 1.0, 5.0);
      MeanBounds(Sum(ps), |ps| as real, 1.0, 5.0);
    }
  }
}
