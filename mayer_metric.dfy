/**
 * The Mayer-wave metric of the heart-rate analysis: the share of spectral power that falls in
 * the Mayer band [low_cut, high_cut], and the frequency of the strongest spectral bin above
 * 0.02 Hz. A spectrum is a pair of arrays `freqs` and `powers` of equal length; the band
 * cut-offs, read from the configuration by the original, are parameters here.
 */
module MayerMetric {
  import opened Wrappers
  import opened NumPy

  /** `(freqs >= low_cut) & (freqs <= high_cut)`: both cut-offs are inclusive. */
  function BandMask(freqs: seq<real>, lowCut: real, highCut: real): (mask: seq<bool>)
    ensures |mask| == |freqs|
    ensures forall k :: 0 <= k < |freqs| ==> (mask[k] <==> lowCut <= freqs[k] <= highCut)
  {
    seq(|freqs|, k requires 0 <= k < |freqs| => lowCut <= freqs[k] && freqs[k] <= highCut)
  }

  /** Line 12: the trapezoid integral of the in-band bins, in their own frequency order. */
  function BandPower(freqs: seq<real>, powers: seq<real>, lowCut: real, highCut: real): real
    requires |freqs| == |powers|
  {
    var mask := BandMask(freqs, lowCut, highCut);
    Trapz(Select(powers, mask), Select(freqs, mask))
  }

  /** `xs[1:]`: everything after the first element; empty for an empty array. */
  function Tail(xs: seq<real>): (r: seq<real>)
    ensures |r| == if xs == [] then 0 else |xs| - 1
    ensures forall k :: 0 <= k < |r| ==> r[k] == xs[k + 1]
  {
    if xs == [] then [] else xs[1..]
  }

  /** Line 14: the trapezoid integral over bins 1 .. n-1, leaving out the DC bin. */
  function TotalPower(freqs: seq<real>, powers: seq<real>): real
    requires |freqs| == |powers|
  {
    Trapz(Tail(powers), Tail(freqs))
  }

  /** `calculate_mayer_score`: band power over total power, and 0.0 when the total is zero. */
  function MayerScore(freqs: seq<real>, powers: seq<real>, lowCut: real, highCut: real): real
    requires |freqs| == |powers|
  {
    var total := TotalPower(freqs, powers);
    if total == 0.0 then 0.0 else BandPower(freqs, powers, lowCut, highCut) / total
  }

  /**
   * Lines 16-19: the score is zero exactly when the total vanishes or the band holds no power,
   * and it has the sign of band power over total power.
   */
  lemma MayerScoreSpec(freqs: seq<real>, powers: seq<real>, lowCut: real, highCut: real)
    requires |freqs| == |powers|
    ensures var score, total := MayerScore(freqs, powers, lowCut, highCut), TotalPower(freqs, powers);
      && (score == 0.0 <==> total == 0.0 || BandPower(freqs, powers, lowCut, highCut) == 0.0)
      && (0.0 < score <==> var band := BandPower(freqs, powers, lowCut, highCut);
            (0.0 < band && 0.0 < total) || (band < 0.0 && total < 0.0))
  {
    var band, total := BandPower(freqs, powers, lowCut, highCut), TotalPower(freqs, powers);
    Share(band, total, MayerScore(freqs, powers, lowCut, highCut));
  }

  /**
   * The total is the integral over the whole spectrum minus its first panel, the one that
   * starts at the DC bin; with fewer than three bins it is zero.
   */
  lemma TotalExcludesDC(freqs: seq<real>, powers: seq<real>)
    requires |freqs| == |powers|
    ensures |freqs| < 3 ==> TotalPower(freqs, powers) == 0.0
    ensures 2 <= |freqs| ==> TotalPower(freqs, powers) == Trapz(powers, freqs) - Panel(powers, freqs, 0)
  {
    var n := |freqs|;
    if 2 <= n {
      assert powers[1..] == powers[1..n] && freqs[1..] == freqs[1..n];
      assert powers[0..n] == powers && freqs[0..n] == freqs;
      TrapzSlice(powers, freqs, 1, n);
      TrapzSlice(powers, freqs, 0, n);
      PanelsSplit(powers, freqs, 0, 1, n - 1);
    }
  }

  /** A band that holds fewer than two bins has no area, so the score is zero. */
  lemma NarrowBandScoresZero(freqs: seq<real>, powers: seq<real>, lowCut: real, highCut: real)
    requires |freqs| == |powers|
    requires |Where(BandMask(freqs, lowCut, highCut))| < 2
    ensures BandPower(freqs, powers, lowCut, highCut) == 0.0
    ensures MayerScore(freqs, powers, lowCut, highCut) == 0.0
  {
  }

  /**
   * On a non-decreasing frequency axis the band is one run of bins lo .. hi-1, from
   * `searchsorted(freqs, low_cut, 'left')` to `searchsorted(freqs, high_cut, 'right')`, and the
   * band power is the sum of the panels inside that run.
   */
  lemma BandIsRun(freqs: seq<real>, powers: seq<real>, lowCut: real, highCut: real)
    requires |freqs| == |powers| && NonDecreasing(freqs)
    ensures var lo, hi := SearchLeft(freqs, lowCut), SearchRight(freqs, highCut);
      && (forall k :: 0 <= k < |freqs| ==> (lowCut <= freqs[k] <= highCut <==> lo <= k < hi))
      && (lo < hi ==> BandPower(freqs, powers, lowCut, highCut) == Panels(powers, freqs, lo, hi - 1))
      && (hi <= lo ==> BandPower(freqs, powers, lowCut, highCut) == 0.0)
  {
    ClosedRangeMask(freqs, lowCut, highCut, BandMask(freqs, lowCut, highCut));
    BandAsPanels(freqs, powers, lowCut, highCut, SearchLeft(freqs, lowCut), SearchRight(freqs, highCut));
  }

  /** The panel-sum half of BandIsRun. */
  lemma BandAsPanels(freqs: seq<real>, powers: seq<real>, lowCut: real, highCut: real, lo: nat, hi: nat)
    requires |freqs| == |powers| && NonDecreasing(freqs)
    requires lo == SearchLeft(freqs, lowCut) && hi == SearchRight(freqs, highCut)
    ensures lo < hi ==> BandPower(freqs, powers, lowCut, highCut) == Panels(powers, freqs, lo, hi - 1)
    ensures hi <= lo ==> BandPower(freqs, powers, lowCut, highCut) == 0.0
  {
    var mask := BandMask(freqs, lowCut, highCut);
    ClosedRangeMask(freqs, lowCut, highCut, mask);
    if lo < hi {
      SelectInterval(powers, mask, lo, hi);
      SelectInterval(freqs, mask, lo, hi);
      TrapzSlice(powers, freqs, lo, hi);
    } else {
      WhereInterval(mask, 0, 0);
    }
  }

  /** On a non-decreasing axis with non-negative powers, the band power is at most the total. */
  lemma BandWithinTotal(freqs: seq<real>, powers: seq<real>, lowCut: real, highCut: real)
    requires |freqs| == |powers| && NonDecreasing(freqs)
    requires forall k :: 0 <= k < |powers| ==> 0.0 <= powers[k]
    requires |freqs| > 0 ==> freqs[0] < lowCut
    ensures 0.0 <= BandPower(freqs, powers, lowCut, highCut) <= TotalPower(freqs, powers)
  {
    var n := |freqs|;
    var lo, hi := SearchLeft(freqs, lowCut), SearchRight(freqs, highCut);
    BandAsPanels(freqs, powers, lowCut, highCut, lo, hi);
    if 2 <= n {
      SkipsDC(freqs, lowCut);
      SortedPanelsNonNegative(powers, freqs);
      TotalIsPanels(freqs, powers);
      RunWithin(powers, freqs, lo, hi, BandPower(freqs, powers, lowCut, highCut), TotalPower(freqs, powers));
    } else {
      TotalExcludesDC(freqs, powers);
    }
  }

  /** A band whose low cut-off lies above the first bin's frequency starts after that bin. */
  lemma SkipsDC(freqs: seq<real>, lowCut: real)
    requires 0 < |freqs| && freqs[0] < lowCut
    ensures 1 <= SearchLeft(freqs, lowCut)
  {
  }

  /** A run of panels lo..hi-2 that skips panel 0 lies between 0 and the sum of panels 1.. . */
  lemma RunWithin(y: seq<real>, x: seq<real>, lo: nat, hi: nat, band: real, total: real)
    requires |y| == |x| && 2 <= |y| && 1 <= lo && hi <= |y|
    requires forall k :: 0 <= k < |y| - 1 ==> 0.0 <= Panel(y, x, k)
    requires lo < hi ==> band == Panels(y, x, lo, hi - 1)
    requires hi <= lo ==> band == 0.0
    requires total == Panels(y, x, 1, |y| - 1)
    ensures 0.0 <= band <= total
  {
    if lo < hi {
      PanelsWithin(y, x, 1, lo, hi - 1, |y| - 1);
    } else {
      PanelsNonNegative(y, x, 1, |y| - 1);
    }
  }

  /** On a non-decreasing axis with non-negative heights, every trapezoid has non-negative area. */
  lemma SortedPanelsNonNegative(y: seq<real>, x: seq<real>)
    requires |y| == |x| && NonDecreasing(x)
    requires forall k :: 0 <= k < |y| ==> 0.0 <= y[k]
    ensures forall k :: 0 <= k < |y| - 1 ==> 0.0 <= Panel(y, x, k)
  {
    forall k | 0 <= k < |y| - 1 ensures 0.0 <= Panel(y, x, k) {
      PanelNonNegative(y, x, k);
    }
  }

  /** With non-negative panels, the panels i..j-1 sum to at most the panels a..b-1 around them. */
  lemma PanelsWithin(y: seq<real>, x: seq<real>, a: nat, i: nat, j: nat, b: nat)
    requires |y| == |x| && a <= i <= j <= b < |y|
    requires forall k :: 0 <= k < |y| - 1 ==> 0.0 <= Panel(y, x, k)
    ensures 0.0 <= Panels(y, x, i, j) <= Panels(y, x, a, b)
  {
    PanelsNonNegative(y, x, i, j);
    PanelsNonNegative(y, x, a, i);
    PanelsNonNegative(y, x, j, b);
    PanelsSplit(y, x, a, i, b);
    PanelsSplit(y, x, i, j, b);
  }

  /** The total as a sum of the panels from bin 1 on. */
  lemma TotalIsPanels(freqs: seq<real>, powers: seq<real>)
    requires |freqs| == |powers| && 2 <= |freqs|
    ensures TotalPower(freqs, powers) == Panels(powers, freqs, 1, |freqs| - 1)
  {
    var n := |freqs|;
    assert powers[1..] == powers[1..n] && freqs[1..] == freqs[1..n];
    TrapzSlice(powers, freqs, 1, n);
  }

  /**
   * With a non-decreasing frequency axis, non-negative powers and a band that starts above the
   * DC bin's frequency, the score is a fraction: between 0 and 1.
   */
  lemma ScoreIsFraction(freqs: seq<real>, powers: seq<real>, lowCut: real, highCut: real)
    requires |freqs| == |powers| && NonDecreasing(freqs)
    requires forall k :: 0 <= k < |powers| ==> 0.0 <= powers[k]
    requires |freqs| > 0 ==> freqs[0] < lowCut
    ensures 0.0 <= MayerScore(freqs, powers, lowCut, highCut) <= 1.0
  {
    BandWithinTotal(freqs, powers, lowCut, highCut);
    RatioIsFraction(BandPower(freqs, powers, lowCut, highCut), TotalPower(freqs, powers));
  }

  lemma RatioIsFraction(part: real, whole: real)
    requires 0.0 <= part <= whole
    ensures whole != 0.0 ==> 0.0 <= part / whole <= 1.0
  {
  }

  lemma Share(part: real, whole: real, share: real)
    requires share == if whole == 0.0 then 0.0 else part / whole
    ensures share == 0.0 <==> whole == 0.0 || part == 0.0
    ensures 0.0 < share <==> (0.0 < part && 0.0 < whole) || (part < 0.0 && whole < 0.0)
  {
    if whole != 0.0 {
      assert share * whole == part;
      if 0.0 < share {
        assert (0.0 < whole ==> 0.0 < part) && (whole < 0.0 ==> part < 0.0);
      }
    }
  }

  /** A trapezoid over an increasing step with non-negative heights has non-negative area. */
  lemma PanelNonNegative(y: seq<real>, x: seq<real>, k: nat)
    requires |y| == |x| && k + 1 < |y|
    requires x[k] <= x[k + 1] && 0.0 <= y[k] && 0.0 <= y[k + 1]
    ensures 0.0 <= Panel(y, x, k)
  {
    var w, h := x[k + 1] - x[k], y[k + 1] + y[k];
    assert 0.0 <= w * h;
  }

  /** `np.argmax` of an empty selection raises. */
  datatype PeakError = NoFrequencyAbove

  /** The frequency floor of the peak search. */
  const PeakFloor: real := 0.02

  /** `freqs > 0.02`. */
  function AboveFloor(freqs: seq<real>): (mask: seq<bool>)
    ensures |mask| == |freqs|
    ensures forall k :: 0 <= k < |freqs| ==> (mask[k] <==> PeakFloor < freqs[k])
  {
    seq(|freqs|, k requires 0 <= k < |freqs| => PeakFloor < freqs[k])
  }

  /** `detect_peak_frequency`: the frequency of the strongest bin above 0.02 Hz. */
  function DetectPeakFrequency(freqs: seq<real>, powers: seq<real>): Result<real, PeakError>
    requires |freqs| == |powers|
  {
    var valid := Where(AboveFloor(freqs));
    if |valid| == 0 then Failure(NoFrequencyAbove)
    else Success(Gather(freqs, valid)[ArgMax(Gather(powers, valid))])
  }

  /**
   * The search fails exactly when no frequency exceeds 0.02; otherwise it returns the frequency
   * of a bin k above 0.02 whose power is at least that of every bin above 0.02, and k is the
   * first such bin.
   */
  lemma PeakFrequencySpec(freqs: seq<real>, powers: seq<real>)
    requires |freqs| == |powers|
    ensures DetectPeakFrequency(freqs, powers).Failure? <==> forall k :: 0 <= k < |freqs| ==> freqs[k] <= PeakFloor
    ensures DetectPeakFrequency(freqs, powers).Success? ==>
      var k := PeakBin(freqs, powers);
      && k < |freqs|
      && DetectPeakFrequency(freqs, powers).value == freqs[k]
      && PeakFloor < freqs[k]
      && (forall i :: 0 <= i < |freqs| && PeakFloor < freqs[i] ==> powers[i] <= powers[k])
      && (forall i :: 0 <= i < k && PeakFloor < freqs[i] ==> powers[i] < powers[k])
  {
    var mask := AboveFloor(freqs);
    var valid := Where(mask);
    WhereComplete(mask);
    if |valid| == 0 {
      assert forall k :: 0 <= k < |freqs| ==> !mask[k];
    } else {
      GatherArgMax(powers, valid);
      forall i | 0 <= i < |freqs| && PeakFloor < freqs[i]
        ensures i in valid
      {
      }
    }
  }

  /** The bin whose frequency DetectPeakFrequency returns (0 when there is none). */
  function PeakBin(freqs: seq<real>, powers: seq<real>): nat
    requires |freqs| == |powers|
  {
    var valid := Where(AboveFloor(freqs));
    if |valid| == 0 then 0 else valid[ArgMax(Gather(powers, valid))]
  }
}
