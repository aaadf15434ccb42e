/**
 * The two encoders the dry run uses to build a numeric carrier feature:
 * frequency encoding (each row gets the share of rows in its category) and
 * out-of-fold smoothed target encoding.
 */
module Encoders {
  import opened Wrappers
  import opened Tables

  // ---------------------------------------------------------------------
  // Frequency encoding
  // ---------------------------------------------------------------------

  /** The text a missing category is replaced by before counting. */
  const MissingPlaceholder := "__MISSING__"

  /** The category a value is counted under: a missing value joins the placeholder's category. */
  function FreqKey(v: Value): (k: Value)
    ensures !k.Missing?
    ensures v.Missing? || k == v
  {
    if v.Missing? then Str(MissingPlaceholder) else v
  }

  /** The categories of a column, row by row. */
  function Keys(col: seq<Value>): (ks: seq<Value>)
    ensures |ks| == |col|
    ensures forall r :: 0 <= r < |col| ==> ks[r] == FreqKey(col[r])
  {
    seq(|col|, r requires 0 <= r < |col| => FreqKey(col[r]))
  }

  /** Number of rows of `col` counted under `key`. */
  function CountKey(col: seq<Value>, key: Value): (n: nat)
    ensures n <= |col|
  {
    if col == [] then 0
    else (if FreqKey(col[0]) == key then 1 else 0) + CountKey(col[1..], key)
  }

  /** The count agrees with the multiplicity of the category in the column. */
  lemma {:induction false} CountKeyIsMultiplicity(col: seq<Value>, key: Value)
    ensures CountKey(col, key) == multiset(Keys(col))[key]
  {
    if col != [] {
      assert Keys(col) == [FreqKey(col[0])] + Keys(col[1..]);
      CountKeyIsMultiplicity(col[1..], key);
    }
  }

  /** Every row's own category is counted at least once. */
  lemma CountKeyPositive(col: seq<Value>)
    ensures forall r :: 0 <= r < |col| ==> CountKey(col, FreqKey(col[r])) >= 1
  {
    forall r | 0 <= r < |col|
      ensures CountKey(col, FreqKey(col[r])) >= 1
    {
      CountKeyIsMultiplicity(col, FreqKey(col[r]));
      assert Keys(col)[r] == FreqKey(col[r]);
    }
  }

  /** `value_counts(normalize=True)`: each category seen, with its share of the rows. */
  function ValueCounts(col: seq<Value>): (freq: map<Value, real>)
    ensures freq.Keys == set r | 0 <= r < |col| :: FreqKey(col[r])
    ensures forall k :: k in freq ==> freq[k] == CountKey(col, k) as real / |col| as real
    ensures forall k :: k in freq ==> 0.0 < freq[k] <= 1.0
  {
    var cats := set r | 0 <= r < |col| :: FreqKey(col[r]);
    assert forall k :: k in cats ==> 1 <= CountKey(col, k) <= |col| by {
      CountKeyPositive(col);
    }
    ShareBounds(col, cats);
    map k | k in cats :: CountKey(col, k) as real / |col| as real
  }

  /** A count between one and the number of rows gives a share in (0, 1]. */
  lemma ShareBounds(col: seq<Value>, cats: set<Value>)
    requires forall k :: k in cats ==> 1 <= CountKey(col, k) <= |col|
    ensures forall k :: k in cats ==> 0.0 < CountKey(col, k) as real / |col| as real <= 1.0
  {
    forall k | k in cats
      ensures 0.0 < CountKey(col, k) as real / |col| as real <= 1.0
    {
      UnitShare(CountKey(col, k) as real, |col| as real);
    }
  }

  lemma UnitShare(c: real, n: real)
    requires 1.0 <= c <= n
    ensures 0.0 < c / n <= 1.0
  {
    var q := c / n;
    assert q * n == c;
  }

  /** Frequency encoding: every row gets the share of the column's rows that are in its category. */
  function FrequencyEncode(col: seq<Value>): (enc: seq<Value>)
    ensures |enc| == |col|
    ensures forall r :: 0 <= r < |col| ==>
      enc[r] == Num(multiset(Keys(col))[FreqKey(col[r])] as real / |col| as real)
    ensures forall r :: 0 <= r < |col| ==> enc[r].Num? && 0.0 < enc[r].x <= 1.0
  {
    var freq := ValueCounts(col);
    forall r | 0 <= r < |col|
      ensures CountKey(col, FreqKey(col[r])) == multiset(Keys(col))[FreqKey(col[r])]
    {
      CountKeyIsMultiplicity(col, FreqKey(col[r]));
    }
    seq(|col|, r requires 0 <= r < |col| =>
      if FreqKey(col[r]) in freq then Num(freq[FreqKey(col[r])]) else Missing)
  }

  /** Rows in the same category get the same frequency; a missing value shares the placeholder's. */
  lemma FrequencySameCategory(col: seq<Value>, r: nat, t: nat)
    requires r < |col| && t < |col|
    requires FreqKey(col[r]) == FreqKey(col[t])
    ensures FrequencyEncode(col)[r] == FrequencyEncode(col)[t]
  {
  }

  /** `fillna(v)`: every missing entry replaced by `v`. */
  function FillNa(vals: seq<Value>, v: Value): (filled: seq<Value>)
    ensures |filled| == |vals|
    ensures forall r :: 0 <= r < |vals| ==> filled[r] == if vals[r].Missing? then v else vals[r]
    ensures !v.Missing? ==> forall r :: 0 <= r < |filled| ==> !filled[r].Missing?
  {
    seq(|vals|, r requires 0 <= r < |vals| => if vals[r].Missing? then v else vals[r])
  }

  /** The fallback's `fillna(0)` never fires: frequency encoding leaves no value missing. */
  lemma FrequencyFillNaNoOp(col: seq<Value>)
    ensures FillNa(FrequencyEncode(col), Num(0.0)) == FrequencyEncode(col)
  {
  }

  // ---------------------------------------------------------------------
  // Out-of-fold target encoding
  // ---------------------------------------------------------------------

  /** The reasons target encoding raises. */
  datatype EncodeError =
    | KFoldUnavailable   // the fold splitter cannot be imported
    | NonNumericTarget   // a target value does not convert to a float
    | TooFewSplits       // fewer than two folds were asked for
    | TooFewRows         // fewer rows than folds

  /** Sum of the numeric targets among the first `n` rows (missing targets are skipped). */
  function NumSum(target: seq<Value>, n: nat): real
    requires n <= |target|
  {
    if n == 0 then 0.0
    else NumSum(target, n - 1) + (if target[n - 1].Num? then target[n - 1].x else 0.0)
  }

  /** Number of numeric targets among the first `n` rows. */
  function NumCount(target: seq<Value>, n: nat): (c: nat)
    requires n <= |target|
    ensures c <= n
  {
    if n == 0 then 0 else NumCount(target, n - 1) + (if target[n - 1].Num? then 1 else 0)
  }

  /** The mean of all numeric targets, over every row; none when no target is numeric. */
  function GlobalMean(target: seq<Value>): (g: Option<real>)
    ensures g.None? <==> forall t :: 0 <= t < |target| ==> !target[t].Num?
  {
    NumCountPositive(target, |target|);
    var c := NumCount(target, |target|);
    if c == 0 then None else Some(NumSum(target, |target|) / c as real)
  }

  /** The global mean as a cell value (missing when there is none). */
  function MeanValue(g: Option<real>): Value
  {
    if g.Some? then Num(g.value) else Missing
  }

  /**
   * The targets that feed the statistics of category `cat` when fold `k` is
   * held out: the targets of the rows of `cat` outside fold `k`, with every
   * other row's target blanked out.
   */
  function TrainTargets(raw: seq<Value>, target: seq<Value>, fold: seq<nat>, k: nat, cat: Value): (tt: seq<Value>)
    requires |raw| == |target| == |fold|
    ensures |tt| == |target|
    ensures forall t :: 0 <= t < |tt| ==> tt[t] == if fold[t] != k && raw[t] == cat then target[t] else Missing
  {
    seq(|target|, t requires 0 <= t < |target| => if fold[t] != k && raw[t] == cat then target[t] else Missing)
  }

  /** The categories that occur outside fold `k` (a missing category is never a group). */
  function TrainCategories(raw: seq<Value>, fold: seq<nat>, k: nat): (cats: set<Value>)
    requires |raw| == |fold|
    ensures forall c :: c in cats ==> !c.Missing?
  {
    set t | 0 <= t < |raw| && fold[t] != k && !raw[t].Missing? :: raw[t]
  }

  /** The per-category statistics of the training part: target sum and count. */
  function GroupStats(raw: seq<Value>, target: seq<Value>, fold: seq<nat>, k: nat): (stats: map<Value, (real, nat)>)
    requires |raw| == |target| == |fold|
    ensures stats.Keys == TrainCategories(raw, fold, k)
  {
    map c | c in TrainCategories(raw, fold, k) ::
      var tt := TrainTargets(raw, target, fold, k, c); (NumSum(tt, |tt|), NumCount(tt, |tt|))
  }

  /** Additive smoothing of a category's mean towards the global mean. */
  function Smooth(sum: real, count: nat, alpha: real, g: real): (s: real)
    requires alpha > 0.0
    ensures sum == count as real * g ==> s == g
  {
    var den := count as real + alpha;
    assert sum == count as real * g ==> sum + alpha * g == den * g;
    (sum + alpha * g) / den
  }

  /** The smoothed encoding of every training category (missing when there is no global mean). */
  function SmoothMap(stats: map<Value, (real, nat)>, alpha: real, g: Option<real>): (smooth: map<Value, Value>)
    requires alpha > 0.0
    ensures smooth.Keys == stats.Keys
    ensures forall c :: c in smooth ==> (smooth[c].Missing? <==> g.None?)
  {
    map c | c in stats :: if g.Some? then Num(Smooth(stats[c].0, stats[c].1, alpha, g.value)) else Missing
  }

  /**
   * The value target encoding gives row `r`: its category's smoothed mean over
   * the rows outside its own fold, or the global mean when its category is
   * missing or does not occur outside the fold.
   */
  function OofValue(raw: seq<Value>, target: seq<Value>, fold: seq<nat>, alpha: real, r: nat): (v: Value)
    requires |raw| == |target| == |fold| && r < |raw| && alpha > 0.0
    ensures v.Missing? <==> GlobalMean(target).None?
  {
    var g := GlobalMean(target);
    if g.None? then Missing
    else if raw[r] in TrainCategories(raw, fold, fold[r]) then
      var tt := TrainTargets(raw, target, fold, fold[r], raw[r]);
      Num(Smooth(NumSum(tt, |tt|), NumCount(tt, |tt|), alpha, g.value))
    else Num(g.value)
  }

  /** The smoothed map fitted on the rows outside fold `k`. */
  function FoldMap(raw: seq<Value>, target: seq<Value>, fold: seq<nat>, alpha: real, k: nat): (fm: map<Value, Value>)
    requires |raw| == |target| == |fold| && alpha > 0.0
    ensures fm.Keys == TrainCategories(raw, fold, k)
    ensures forall c :: c in fm ==> (fm[c].Missing? <==> GlobalMean(target).None?)
  {
    SmoothMap(GroupStats(raw, target, fold, k), alpha, GlobalMean(target))
  }

  /** Mapping a category through a fitted map, then filling a miss with `mean`. */
  function Lookup(smooth: map<Value, Value>, c: Value, mean: Value): (v: Value)
    ensures c !in smooth ==> v == mean
    ensures v == mean || (c in smooth && v == smooth[c] && !v.Missing?)
  {
    var mapped := if c in smooth then smooth[c] else Missing;
    if mapped.Missing? then mean else mapped
  }

  /** Looking a row up in its own fold's map, then filling a miss with the global mean, gives its value. */
  lemma LookupIsOof(raw: seq<Value>, target: seq<Value>, fold: seq<nat>, alpha: real, k: nat, r: nat)
    requires |raw| == |target| == |fold| && r < |raw| && fold[r] == k && alpha > 0.0
    ensures Lookup(FoldMap(raw, target, fold, alpha, k), raw[r], MeanValue(GlobalMean(target)))
            == OofValue(raw, target, fold, alpha, r)
  {
  }

  /**
   * Cross-fitted target encoding of `raw` against `target`. The shuffled
   * fold assignment is an input: `fold[r]` is the fold in which row `r` is
   * held out.
   */
  method CrossFittedTargetEncode(raw: seq<Value>, target: seq<Value>, fold: seq<nat>, nSplits: nat,
                                 alpha: real, kfoldAvailable: bool)
    returns (res: Result<seq<Value>, EncodeError>)
    requires |raw| == |target| == |fold| && alpha > 0.0
    requires nSplits >= 2 && |raw| >= nSplits ==> forall t :: 0 <= t < |fold| ==> fold[t] < nSplits
    ensures !kfoldAvailable ==> res == Err(KFoldUnavailable)
    ensures kfoldAvailable && (exists t :: 0 <= t < |target| && target[t].Str?) ==> res == Err(NonNumericTarget)
    ensures kfoldAvailable && (forall t :: 0 <= t < |target| ==> !target[t].Str?) ==>
      && (nSplits < 2 ==> res == Err(TooFewSplits))
      && (nSplits >= 2 && |raw| < nSplits ==> res == Err(TooFewRows))
      && (nSplits >= 2 && |raw| >= nSplits ==> res.Ok?)
    ensures res.Ok? ==>
      && |res.value| == |raw|
      && forall r :: 0 <= r < |raw| ==> res.value[r] == OofValue(raw, target, fold, alpha, r)
  {
    if !kfoldAvailable {
      return Err(KFoldUnavailable);
    }
    if exists t :: 0 <= t < |target| && target[t].Str? {
      return Err(NonNumericTarget);
    }
    var g := GlobalMean(target);
    if nSplits < 2 {
      return Err(TooFewSplits);
    }
    if |raw| < nSplits {
      return Err(TooFewRows);
    }
    var encoded := new Value[|raw|](_ => Missing);
    for k := 0 to nSplits
      invariant EncodedUpTo(encoded[..], raw, target, fold, alpha, k)
    {
      EncodeFold(encoded, raw, target, fold, alpha, k);
    }
    assert forall t :: 0 <= t < |raw| ==> fold[t] < nSplits;
    res := Ok(FillNa(encoded[..], MeanValue(g)));
  }

  /** Every row of a fold before `k` holds its encoding; every other row is still missing. */
  ghost predicate EncodedUpTo(encoded: seq<Value>, raw: seq<Value>, target: seq<Value>, fold: seq<nat>,
                              alpha: real, k: nat)
    requires |raw| == |target| == |fold| && alpha > 0.0
  {
    && |encoded| == |raw|
    && forall t :: 0 <= t < |raw| ==>
         encoded[t] == if fold[t] < k then OofValue(raw, target, fold, alpha, t) else Missing
  }

  /**
   * One round of the cross-fitting loop: the statistics of the rows outside
   * fold `k` encode the rows of fold `k`.
   */
  method EncodeFold(encoded: array<Value>, raw: seq<Value>, target: seq<Value>, fold: seq<nat>,
                    alpha: real, k: nat)
    requires |raw| == |target| == |fold| && alpha > 0.0
    requires EncodedUpTo(encoded[..], raw, target, fold, alpha, k)
    modifies encoded
    ensures EncodedUpTo(encoded[..], raw, target, fold, alpha, k + 1)
  {
    var smooth := FoldMap(raw, target, fold, alpha, k);
    var mean := MeanValue(GlobalMean(target));
    ghost var oof := seq(|raw|, t requires 0 <= t < |raw| => OofValue(raw, target, fold, alpha, t));
    for r := 0 to |raw|
      invariant forall t :: 0 <= t < |raw| ==>
        encoded[t] == if fold[t] < k || (fold[t] == k && t < r) then oof[t] else Missing
    {
      if fold[r] == k {
        LookupIsOof(raw, target, fold, alpha, k, r);
        encoded[r] := Lookup(smooth, raw[r], mean);
      }
    }
  }

  // ---------------------------------------------------------------------
  // Properties of the target encoding
  // ---------------------------------------------------------------------

  /** There is a global mean exactly when some target is numeric. */
  lemma {:induction false} NumCountPositive(target: seq<Value>, n: nat)
    requires n <= |target|
    ensures NumCount(target, n) > 0 <==> exists t :: 0 <= t < n && target[t].Num?
  {
    if n > 0 {
      NumCountPositive(target, n - 1);
    }
  }

  /** An encoded value is present exactly when some target is numeric. */
  lemma OofPresent(raw: seq<Value>, target: seq<Value>, fold: seq<nat>, alpha: real, r: nat)
    requires |raw| == |target| == |fold| && r < |raw| && alpha > 0.0
    ensures OofValue(raw, target, fold, alpha, r).Num? <==> exists t :: 0 <= t < |target| && target[t].Num?
  {
    NumCountPositive(target, |target|);
  }

  /** A quotient of a number between `den*lo` and `den*hi` by a positive `den` lies in [lo, hi]. */
  lemma DivBounds(num: real, den: real, lo: real, hi: real)
    requires den > 0.0 && den * lo <= num <= den * hi
    ensures lo <= num / den <= hi
  {
    var q := num / den;
    assert q * den == num;
    assert (q - lo) * den >= 0.0;
    assert (hi - q) * den >= 0.0;
  }

  lemma {:induction false} NumSumBounds(target: seq<Value>, n: nat, lo: real, hi: real)
    requires n <= |target|
    requires forall t :: 0 <= t < |target| && target[t].Num? ==> lo <= target[t].x <= hi
    ensures NumCount(target, n) as real * lo <= NumSum(target, n) <= NumCount(target, n) as real * hi
  {
    if n > 0 {
      NumSumBounds(target, n - 1, lo, hi);
      var c := NumCount(target, n - 1) as real;
      if target[n - 1].Num? {
        assert lo <= target[n - 1].x <= hi;
        assert (c + 1.0) * lo == c * lo + lo && (c + 1.0) * hi == c * hi + hi;
      }
    }
  }

  /** The global mean lies between the smallest and the largest numeric target. */
  lemma MeanBounds(target: seq<Value>, lo: real, hi: real)
    requires forall t :: 0 <= t < |target| && target[t].Num? ==> lo <= target[t].x <= hi
    ensures GlobalMean(target).Some? ==> lo <= GlobalMean(target).value <= hi
  {
    NumSumBounds(target, |target|, lo, hi);
    var c := NumCount(target, |target|);
    if c > 0 {
      DivBounds(NumSum(target, |target|), c as real, lo, hi);
    }
  }

  /**
   * The encoding stays within the range of the targets: the smoothed value
   * is a weighted average of the category's training targets and the
   * global mean.
   */
  lemma OofBounds(raw: seq<Value>, target: seq<Value>, fold: seq<nat>, alpha: real, r: nat, lo: real, hi: real)
    requires |raw| == |target| == |fold| && r < |raw| && alpha > 0.0
    requires forall t :: 0 <= t < |target| && target[t].Num? ==> lo <= target[t].x <= hi
    ensures OofValue(raw, target, fold, alpha, r).Num? ==> lo <= OofValue(raw, target, fold, alpha, r).x <= hi
  {
    MeanBounds(target, lo, hi);
    var g := GlobalMean(target);
    if g.Some? && raw[r] in TrainCategories(raw, fold, fold[r]) {
      var tt := TrainTargets(raw, target, fold, fold[r], raw[r]);
      TrainTargetsBounds(raw, target, fold, fold[r], raw[r], lo, hi);
      SmoothBounds(NumSum(tt, |tt|), NumCount(tt, |tt|), alpha, g.value, lo, hi);
    }
  }

  /** The training sum of a category lies between `lo` and `hi` times its training count. */
  lemma TrainTargetsBounds(raw: seq<Value>, target: seq<Value>, fold: seq<nat>, k: nat, cat: Value, lo: real, hi: real)
    requires |raw| == |target| == |fold|
    requires forall t :: 0 <= t < |target| && target[t].Num? ==> lo <= target[t].x <= hi
    ensures var tt := TrainTargets(raw, target, fold, k, cat);
            NumCount(tt, |tt|) as real * lo <= NumSum(tt, |tt|) <= NumCount(tt, |tt|) as real * hi
  {
    var tt := TrainTargets(raw, target, fold, k, cat);
    BlankedBounds(tt, target, lo, hi);
  }

  /** Blanking out some targets keeps every remaining one within the bounds. */
  lemma BlankedBounds(tt: seq<Value>, target: seq<Value>, lo: real, hi: real)
    requires |tt| == |target|
    requires forall t :: 0 <= t < |tt| ==> tt[t] == target[t] || tt[t] == Missing
    requires forall t :: 0 <= t < |target| && target[t].Num? ==> lo <= target[t].x <= hi
    ensures NumCount(tt, |tt|) as real * lo <= NumSum(tt, |tt|) <= NumCount(tt, |tt|) as real * hi
  {
    forall t | 0 <= t < |tt| && tt[t].Num?
      ensures lo <= tt[t].x <= hi
    {
      assert tt[t] == target[t];
    }
    NumSumBounds(tt, |tt|, lo, hi);
  }

  /** Multiplying by a non-negative factor keeps an ordering. */
  lemma MulMono(a: real, x: real, y: real)
    requires a >= 0.0 && x <= y
    ensures a * x <= a * y
  {
    assert a * y - a * x == a * (y - x);
  }

  /** Smoothing a mean in [lo, hi] towards a global mean in [lo, hi] stays in [lo, hi]. */
  lemma SmoothBounds(sum: real, count: nat, alpha: real, g: real, lo: real, hi: real)
    requires alpha > 0.0 && lo <= g <= hi
    requires count as real * lo <= sum <= count as real * hi
    ensures lo <= Smooth(sum, count, alpha, g) <= hi
  {
    var c := count as real;
    MulMono(alpha, lo, g);
    MulMono(alpha, g, hi);
    assert (c + alpha) * lo == c * lo + alpha * lo;
    assert (c + alpha) * hi == c * hi + alpha * hi;
    DivBounds(sum + alpha * g, c + alpha, lo, hi);
  }

  /**
   * Out-of-fold: apart from the global mean, a row's encoding does not
   * depend on any target of its own fold, its own label included.
   */
  lemma OofIgnoresOwnFold(raw: seq<Value>, t1: seq<Value>, t2: seq<Value>, fold: seq<nat>, alpha: real, r: nat)
    requires |raw| == |t1| == |t2| == |fold| && r < |raw| && alpha > 0.0
    requires forall t :: 0 <= t < |fold| && fold[t] != fold[r] ==> t1[t] == t2[t]
    requires GlobalMean(t1) == GlobalMean(t2)
    ensures OofValue(raw, t1, fold, alpha, r) == OofValue(raw, t2, fold, alpha, r)
  {
    assert TrainTargets(raw, t1, fold, fold[r], raw[r]) == TrainTargets(raw, t2, fold, fold[r], raw[r]);
  }

  /**
   * The global mean is taken over every row, so a row's own label does reach
   * its encoding through the smoothing term: here only row 0's label differs.
   */
  lemma GlobalMeanCarriesOwnLabel()
    ensures OofValue([Str("a"), Str("a")], [Num(1.0), Num(0.0)], [0, 1], 200.0, 0)
         != OofValue([Str("a"), Str("a")], [Num(0.0), Num(0.0)], [0, 1], 200.0, 0)
  {
    var raw, fold := [Str("a"), Str("a")], [0, 1];
    var t1, t2 := [Num(1.0), Num(0.0)], [Num(0.0), Num(0.0)];
    assert raw[1] in TrainCategories(raw, fold, 0);
    assert NumCount(t1, 1) == 1 && NumSum(t1, 1) == 1.0;
    assert GlobalMean(t1) == Some(0.5);
    assert NumCount(t2, 1) == 1 && NumSum(t2, 1) == 0.0;
    assert GlobalMean(t2) == Some(0.0);
    assert TrainTargets(raw, t1, fold, 0, Str("a")) == [Missing, Num(0.0)];
    assert TrainTargets(raw, t2, fold, 0, Str("a")) == [Missing, Num(0.0)];
  }
}
