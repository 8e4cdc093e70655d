/** The statistics card: the mean energy printed with one decimal (`"0.0"` when there
    are no entries), and the width of the bar under it, that value as a percentage of
    the top level 5. The main view computes the same printed mean. */
module Dashboard {
  import opened Wrappers
  import opened Text
  import opened Types
  import opened Stats

  /** `x.toFixed(1)` for `x >= 0` counts whole tenths: the nearest multiple of `0.1`,
      the larger one on a tie. */
  function Tenths(x: real): (n: nat)
    requires x >= 0.0
    ensures n as real - 0.5 <= x * 10.0 < n as real + 0.5
  {
    (x * 10.0 + 0.5).Floor
  }

  /** The text `toFixed(1)` prints for `n` tenths: the whole part, a point, one digit. */
  function FixedOne(n: nat): (s: string)
    ensures |s| >= 3 && s[|s| - 2] == '.' && IsDigit(s[|s| - 1])
    ensures forall i :: 0 <= i < |s| - 2 ==> IsDigit(s[i])
  {
    NatToString(n / 10) + "." + [DigitChar(n % 10)]
  }

  /** `Number(s)` on the texts `FixedOne` prints, counted in tenths; `None` for any text
      of another shape. A text without a superfluous leading zero prints back as itself. */
  function ParseFixedOne(s: string): (r: Option<nat>)
    ensures r.Some? ==> |s| >= 3 && s[|s| - 2] == '.'
    ensures r.Some? && (s[0] != '0' || |s| == 3) ==> FixedOne(r.value) == s
  {
    if IsFixedOneText(s) then
      ReprintFixedOne(s);
      Some(ParseDigits(s[..|s| - 2]) * 10 + DigitValue(s[|s| - 1]))
    else None
  }

  /** Digits, a point, and one digit. */
  predicate IsFixedOneText(s: string) {
    |s| >= 3 && s[|s| - 2] == '.' && IsDigit(s[|s| - 1])
    && (forall i :: 0 <= i < |s| - 2 ==> IsDigit(s[i]))
  }

  lemma ReprintFixedOne(s: string)
    requires IsFixedOneText(s)
    ensures s[0] != '0' || |s| == 3 ==>
      FixedOne(ParseDigits(s[..|s| - 2]) * 10 + DigitValue(s[|s| - 1])) == s
  {
    var t, c := s[..|s| - 2], s[|s| - 1];
    var n := ParseDigits(t) * 10 + DigitValue(c);
    if s[0] != '0' || |s| == 3 {
      if s[0] != '0' {
        NatToStringOfDigits(t);
      } else {
        assert t == "0";
      }
      assert n / 10 == ParseDigits(t) && n % 10 == DigitValue(c);
      assert s == t + "." + [c];
    }
  }

  /** Reading a printed value back gives the tenths that were printed. */
  lemma ParseFixedOneRoundTrip(n: nat)
    ensures ParseFixedOne(FixedOne(n)) == Some(n)
  {
    var s := FixedOne(n);
    assert s[..|s| - 2] == NatToString(n / 10);
    ParseNatToString(n / 10);
  }

  /** `avgEnergy`: `"0.0"` for no entries, otherwise the mean energy to one decimal. */
  function AverageText(es: seq<Entry>): (r: string)
    ensures |es| == 0 ==> r == "0.0"
    ensures |es| > 0 ==> exists n: nat :: (r == FixedOne(n) && 10 <= n <= 50
      && n as real - 0.5 <= MeanEnergy(es) * 10.0 < n as real + 0.5)
  {
    if |es| == 0 then "0.0"
    else
      var n := Tenths(MeanEnergy(es));
      assert 10 <= n <= 50;
      FixedOne(n)
  }

  /** The printed mean as a number, in tenths: `0` for no entries, and between `10` and
      `50` (a mean of 1.0 to 5.0) otherwise. */
  function AverageTenths(es: seq<Entry>): (n: nat)
    ensures ParseFixedOne(AverageText(es)) == Some(n)
    ensures |es| == 0 <==> n == 0
    ensures |es| > 0 ==> 10 <= n <= 50
  {
    if |es| == 0 then
      assert "0.0" == FixedOne(0);
      ParseFixedOneRoundTrip(0);
      0
    else
      var n := Tenths(MeanEnergy(es));
      assert 10 <= n <= 50;
      ParseFixedOneRoundTrip(n);
      n
  }

  /** The bar's width in percent: `(Number(avgEnergy) / 5) * 100`. */
  function BarWidth(es: seq<Entry>): (w: real)
    ensures 0.0 <= w <= 100.0
    ensures |es| == 0 <==> w == 0.0
    ensures |es| > 0 ==> 20.0 <= w
  {
    (AverageTenths(es) as real / 10.0 / 5.0) * 100.0
  }

  /** A full bar needs entries whose true mean energy is at least 4.95: the printed
      mean is rounded, so a full bar does not mean every entry is at the top level. */
  lemma FullBarNeedsHighMean(es: seq<Entry>)
    requires BarWidth(es) == 100.0
    ensures |es| > 0 && MeanEnergy(es) >= 4.95
  {
  }
}
