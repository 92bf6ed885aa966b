/**
 * The handful of NumPy primitives that the analysis code composes: `int()` truncation,
 * `np.argmax`, `np.where`, fancy and boolean-mask indexing, `np.trapz` and
 * `np.searchsorted` on sorted data. Floats are modelled as reals.
 */
module NumPy {

  /** Python's `int(x)` on a float: truncation toward zero. */
  function Trunc(x: real): (n: int)
    ensures 0.0 <= x ==> 0 <= n && n as real <= x < n as real + 1.0
    ensures x < 0.0 ==> n <= 0 && n as real - 1.0 < x <= n as real
  {
    if x >= 0.0 then x.Floor else -((-x).Floor)
  }

  /** `np.argmax`: the index of the first maximal element (a later sample wins only if strictly larger). */
  function ArgMax(xs: seq<real>): (k: nat)
    requires |xs| > 0
    ensures k < |xs|
    ensures forall j :: 0 <= j < |xs| ==> xs[j] <= xs[k]
    ensures forall j :: 0 <= j < k ==> xs[j] < xs[k]
  {
    if |xs| == 1 then 0
    else
      var k := ArgMax(xs[..|xs| - 1]);
      if xs[k] < xs[|xs| - 1] then |xs| - 1 else k
  }

  /** `np.where(mask)` (also `np.nonzero`): the positions of the true entries, in increasing order. */
  function Where(mask: seq<bool>): (ix: seq<nat>)
    ensures |ix| <= |mask|
    ensures forall j :: 0 <= j < |ix| ==> ix[j] < |mask| && mask[ix[j]]
    ensures forall i, j :: 0 <= i < j < |ix| ==> ix[i] < ix[j]
  {
    if mask == [] then []
    else
      var n := |mask| - 1;
      Where(mask[..n]) + (if mask[n] then [n] else [])
  }

  /** Every true entry of the mask is reported by `np.where`. */
  lemma {:induction false} WhereComplete(mask: seq<bool>)
    ensures forall k :: 0 <= k < |mask| && mask[k] ==> k in Where(mask)
  {
    if mask != [] {
      var n := |mask| - 1;
      WhereComplete(mask[..n]);
      assert forall k :: 0 <= k < n ==> mask[..n][k] == mask[k];
    }
  }

  /** `np.any(mask)`. */
  predicate Any(mask: seq<bool>)
  {
    exists k :: 0 <= k < |mask| && mask[k]
  }

  /** Fancy indexing `xs[ix]`. */
  function Gather<T>(xs: seq<T>, ix: seq<nat>): (r: seq<T>)
    requires forall j :: 0 <= j < |ix| ==> ix[j] < |xs|
    ensures |r| == |ix|
    ensures forall j :: 0 <= j < |ix| ==> r[j] == xs[ix[j]]
  {
    seq(|ix|, j requires 0 <= j < |ix| => xs[ix[j]])
  }

  /** `ix[np.argmax(xs[ix])]` for increasing positions ix: the first position of ix holding the largest value. */
  lemma GatherArgMax(xs: seq<real>, ix: seq<nat>)
    requires |ix| > 0
    requires forall j :: 0 <= j < |ix| ==> ix[j] < |xs|
    requires forall i, j :: 0 <= i < j < |ix| ==> ix[i] < ix[j]
    ensures var p := ix[ArgMax(Gather(xs, ix))];
      && (forall i :: i in ix ==> xs[i] <= xs[p])
      && (forall i :: i in ix && i < p ==> xs[i] < xs[p])
  {
    var heights := Gather(xs, ix);
    var m := ArgMax(heights);
    forall i | i in ix ensures xs[i] <= xs[ix[m]] && (i < ix[m] ==> xs[i] < xs[ix[m]]) {
      var t :| 0 <= t < |ix| && ix[t] == i;
      assert heights[t] <= heights[m];
      if i < ix[m] {
        assert t < m;
        assert heights[t] < heights[m];
      }
    }
  }

  /** Boolean-mask indexing `xs[mask]`, which NumPy defines as `xs[np.nonzero(mask)]`. */
  function Select<T>(xs: seq<T>, mask: seq<bool>): seq<T>
    requires |xs| == |mask|
  {
    Gather(xs, Where(mask))
  }

  /** A mask that is true exactly on the positions lo..hi-1 selects those positions. */
  lemma {:induction false} WhereInterval(mask: seq<bool>, lo: nat, hi: nat)
    requires lo <= hi <= |mask|
    requires forall k :: 0 <= k < |mask| ==> (mask[k] <==> lo <= k < hi)
    ensures |Where(mask)| == hi - lo
    ensures forall j :: 0 <= j < hi - lo ==> Where(mask)[j] == lo + j
  {
    if mask != [] {
      var n := |mask| - 1;
      var prefix := mask[..n];
      var lo', hi' := if lo < n then lo else n, if hi < n then hi else n;
      assert forall k :: 0 <= k < n ==> prefix[k] == mask[k];
      WhereInterval(prefix, lo', hi');
      assert Where(mask) == Where(prefix) + (if mask[n] then [n] else []);
      if mask[n] {
        assert lo' == lo && hi' == n && hi == n + 1;
      } else {
        assert (lo' == lo && hi' == hi) || lo' == hi';
      }
    }
  }

  /** The same mask, applied to data, selects the slice xs[lo..hi]. */
  lemma SelectInterval<T>(xs: seq<T>, mask: seq<bool>, lo: nat, hi: nat)
    requires |xs| == |mask|
    requires lo <= hi <= |mask|
    requires forall k :: 0 <= k < |mask| ==> (mask[k] <==> lo <= k < hi)
    ensures Select(xs, mask) == xs[lo..hi]
  {
    WhereInterval(mask, lo, hi);
  }

  /** Every entry is at least as large as the ones before it. */
  predicate NonDecreasing(xs: seq<real>)
  {
    forall i, j :: 0 <= i < j < |xs| ==> xs[i] <= xs[j]
  }

  /** `np.searchsorted(xs, t, side='left')`: the first position whose entry is at least t. */
  function SearchLeft(xs: seq<real>, t: real): (i: nat)
    ensures i <= |xs|
    ensures forall k :: 0 <= k < i ==> xs[k] < t
    ensures NonDecreasing(xs) ==> forall k :: i <= k < |xs| ==> t <= xs[k]
  {
    if xs == [] || t <= xs[0] then 0 else 1 + SearchLeft(xs[1..], t)
  }

  /** `np.searchsorted(xs, t, side='right')`: the first position whose entry exceeds t. */
  function SearchRight(xs: seq<real>, t: real): (i: nat)
    ensures i <= |xs|
    ensures forall k :: 0 <= k < i ==> xs[k] <= t
    ensures NonDecreasing(xs) ==> forall k :: i <= k < |xs| ==> t < xs[k]
  {
    if xs == [] || t < xs[0] then 0 else 1 + SearchRight(xs[1..], t)
  }

  /**
   * On sorted data, the mask `(xs >= lo) & (xs <= hi)` is true on one contiguous run of
   * positions, from `searchsorted(xs, lo, 'left')` to `searchsorted(xs, hi, 'right')`.
   */
  lemma {:induction false} ClosedRangeMask(xs: seq<real>, lo: real, hi: real, mask: seq<bool>)
    requires NonDecreasing(xs)
    requires |mask| == |xs|
    requires forall k :: 0 <= k < |xs| ==> (mask[k] <==> lo <= xs[k] <= hi)
    ensures var a, b := SearchLeft(xs, lo), SearchRight(xs, hi);
      forall k :: 0 <= k < |xs| ==> (mask[k] <==> a <= k < b)
  {
  }

  /** One trapezoid: the area under the segment between samples k and k+1. */
  function Panel(y: seq<real>, x: seq<real>, k: nat): real
    requires |y| == |x| && k + 1 < |y|
  {
    (x[k + 1] - x[k]) * (y[k + 1] + y[k]) / 2.0
  }

  /** `np.trapz(y, x)`: the trapezoid rule over consecutive pairs of samples; 0 for fewer than two samples. */
  function Trapz(y: seq<real>, x: seq<real>): real
    requires |y| == |x|
  {
    if |y| < 2 then 0.0
    else
      var n := |y| - 1;
      Trapz(y[..n], x[..n]) + Panel(y, x, n - 1)
  }

  /** The sum of the panels i..j-1 of the full arrays. */
  function Panels(y: seq<real>, x: seq<real>, i: nat, j: nat): real
    requires |y| == |x| && j < |y|
    decreases j
  {
    if j <= i then 0.0 else Panels(y, x, i, j - 1) + Panel(y, x, j - 1)
  }

  /** The trapezoid rule over a slice sums the panels that lie inside the slice. */
  lemma {:induction false} TrapzSlice(y: seq<real>, x: seq<real>, a: nat, b: nat)
    requires |y| == |x| && a < b <= |y|
    ensures Trapz(y[a..b], x[a..b]) == Panels(y, x, a, b - 1)
    decreases b
  {
    if b - a >= 2 {
      var n := b - a - 1;
      assert y[a..b][..n] == y[a..b - 1];
      assert x[a..b][..n] == x[a..b - 1];
      TrapzSlice(y, x, a, b - 1);
      assert Panel(y[a..b], x[a..b], n - 1) == Panel(y, x, b - 2);
    }
  }

  lemma {:induction false} PanelsSplit(y: seq<real>, x: seq<real>, i: nat, m: nat, j: nat)
    requires |y| == |x| && i <= m <= j < |y|
    ensures Panels(y, x, i, j) == Panels(y, x, i, m) + Panels(y, x, m, j)
    decreases j
  {
    if m < j {
      PanelsSplit(y, x, i, m, j - 1);
    }
  }

  lemma {:induction false} PanelsNonNegative(y: seq<real>, x: seq<real>, i: nat, j: nat)
    requires |y| == |x| && j < |y|
    requires forall k :: i <= k < j ==> 0.0 <= Panel(y, x, k)
    ensures 0.0 <= Panels(y, x, i, j)
    decreases j
  {
    if i < j {
      PanelsNonNegative(y, x, i, j - 1);
    }
  }
}
