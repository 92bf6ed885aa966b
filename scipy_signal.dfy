/**
 * `scipy.signal.find_peaks(x, prominence=p)` for a one-dimensional real signal:
 * local maxima (a flat top resolves to its middle sample, rounding down), each kept
 * when its topographic prominence is at least p.
 */
module SciPySignal {
  import opened NumPy

  /** First position of the run of equal samples that contains position i. */
  function RunStart(x: seq<real>, i: nat): (l: nat)
    requires i < |x|
    ensures l <= i
  {
    if i > 0 && x[i - 1] == x[i] then RunStart(x, i - 1) else i
  }

  /** Last position of the run of equal samples that contains position i. */
  function RunEnd(x: seq<real>, i: nat): (r: nat)
    requires i < |x|
    ensures i <= r < |x|
    decreases |x| - i
  {
    if i + 1 < |x| && x[i + 1] == x[i] then RunEnd(x, i + 1) else i
  }

  /** RunStart and RunEnd delimit a maximal run: equal samples, and a different one (or an end) on each side. */
  lemma {:induction false} RunIsMaximal(x: seq<real>, i: nat)
    requires i < |x|
    ensures var l, r := RunStart(x, i), RunEnd(x, i);
      && (forall j :: l <= j <= r ==> x[j] == x[i])
      && (l == 0 || x[l - 1] != x[i])
      && (r == |x| - 1 || x[r + 1] != x[i])
  {
    RunStartSpec(x, i);
    RunEndSpec(x, i);
  }

  lemma {:induction false} RunStartSpec(x: seq<real>, i: nat)
    requires i < |x|
    ensures var l := RunStart(x, i);
      (forall j :: l <= j <= i ==> x[j] == x[i]) && (l == 0 || x[l - 1] != x[i])
  {
    if i > 0 && x[i - 1] == x[i] {
      RunStartSpec(x, i - 1);
    }
  }

  lemma {:induction false} RunEndSpec(x: seq<real>, i: nat)
    requires i < |x|
    ensures var r := RunEnd(x, i);
      (forall j :: i <= j <= r ==> x[j] == x[i]) && (r == |x| - 1 || x[r + 1] != x[i])
    decreases |x| - i
  {
    if i + 1 < |x| && x[i + 1] == x[i] {
      RunEndSpec(x, i + 1);
    }
  }

  /**
   * Position i is a peak: the run of equal samples around it has a strictly lower
   * sample on both sides (so it touches neither end of the signal), and i is the
   * middle of that run, `(left_edge + right_edge) // 2`.
   */
  predicate IsPeak(x: seq<real>, i: nat)
    requires i < |x|
  {
    var l, r := RunStart(x, i), RunEnd(x, i);
    0 < l && r < |x| - 1 && x[l - 1] < x[i] && x[r + 1] < x[i] && i == (l + r) / 2
  }

  /** A peak is an interior local maximum: never the first or last sample. */
  lemma PeakIsInteriorMaximum(x: seq<real>, i: nat)
    requires i < |x| && IsPeak(x, i)
    ensures 0 < i < |x| - 1
    ensures x[i - 1] <= x[i] && x[i + 1] <= x[i]
  {
    RunIsMaximal(x, i);
  }

  function Min(a: real, b: real): real { if a <= b then a else b }
  function Max(a: real, b: real): real { if a <= b then b else a }

  /**
   * The lowest sample met while walking left from position i, stopping before the first
   * sample higher than h or at the start of the signal; h itself if the walk is empty.
   */
  function LeftBase(x: seq<real>, h: real, i: int): (m: real)
    requires -1 <= i < |x|
    ensures m <= h
    decreases i + 1
  {
    if i < 0 || h < x[i] then h else Min(x[i], LeftBase(x, h, i - 1))
  }

  /** The mirror image of LeftBase, walking right from position i. */
  function RightBase(x: seq<real>, h: real, i: nat): (m: real)
    requires i <= |x|
    ensures m <= h
    decreases |x| - i
  {
    if i == |x| || h < x[i] then h else Min(x[i], RightBase(x, h, i + 1))
  }

  /** The left base is no higher than any sample of the walk: every sample j..i that stays at most h. */
  lemma {:induction false} LeftBaseBelowWalk(x: seq<real>, h: real, i: int, j: nat)
    requires -1 <= i < |x| && j <= i
    requires forall k :: j <= k <= i ==> x[k] <= h
    ensures LeftBase(x, h, i) <= x[j]
    decreases i + 1
  {
    if j < i {
      LeftBaseBelowWalk(x, h, i - 1, j);
    }
  }

  /** The right base is no higher than any sample of the walk: every sample i..j that stays at most h. */
  lemma {:induction false} RightBaseBelowWalk(x: seq<real>, h: real, i: nat, j: nat)
    requires i <= j < |x|
    requires forall k :: i <= k <= j ==> x[k] <= h
    ensures RightBase(x, h, i) <= x[j]
    decreases |x| - i
  {
    if i < j {
      RightBaseBelowWalk(x, h, i + 1, j);
    }
  }

  /** `scipy.signal.peak_prominences` with no window: height above the higher of the two bases. */
  function Prominence(x: seq<real>, p: nat): (d: real)
    requires p < |x|
    ensures 0.0 <= d
  {
    x[p] - Max(LeftBase(x, x[p], p), RightBase(x, x[p], p))
  }

  /** A peak that passes the `prominence=pmin` filter of find_peaks (the bound is inclusive). */
  predicate Qualifies(x: seq<real>, i: nat, pmin: real)
    requires i < |x|
  {
    IsPeak(x, i) && pmin <= Prominence(x, i)
  }

  /** `find_peaks(x, prominence=pmin)[0]`: every qualifying peak, each once, in increasing order. */
  function FindPeaks(x: seq<real>, pmin: real): (ps: seq<nat>)
    ensures forall j :: 0 <= j < |ps| ==> ps[j] < |x| && Qualifies(x, ps[j], pmin)
    ensures forall i, j :: 0 <= i < j < |ps| ==> ps[i] < ps[j]
  {
    PeaksBelow(x, pmin, |x|)
  }

  /** The qualifying peaks among positions 0..n-1, scanned left to right. */
  function PeaksBelow(x: seq<real>, pmin: real, n: nat): (ps: seq<nat>)
    requires n <= |x|
    ensures forall j :: 0 <= j < |ps| ==> ps[j] < n && Qualifies(x, ps[j], pmin)
    ensures forall i, j :: 0 <= i < j < |ps| ==> ps[i] < ps[j]
  {
    if n == 0 then []
    else PeaksBelow(x, pmin, n - 1) + (if Qualifies(x, n - 1, pmin) then [n - 1] else [])
  }

  lemma {:induction false} PeaksBelowComplete(x: seq<real>, pmin: real, n: nat)
    requires n <= |x|
    ensures forall k :: 0 <= k < n && Qualifies(x, k, pmin) ==> k in PeaksBelow(x, pmin, n)
  {
    if n > 0 {
      PeaksBelowComplete(x, pmin, n - 1);
    }
  }

  /** No qualifying peak is missed. */
  lemma FindPeaksComplete(x: seq<real>, pmin: real)
    ensures forall k :: 0 <= k < |x| && Qualifies(x, k, pmin) ==> k in FindPeaks(x, pmin)
  {
    PeaksBelowComplete(x, pmin, |x|);
  }
}
