/**
 * Approximation of a reordered pixel from its three sorted neighbours
 * (resample.cc, geoapprox): invalid samples are ignored, a lone valid
 * sample is taken as it is, and two or three valid samples are averaged
 * with weights that fall off with the great-circle distance to the target.
 * The distance and the weight kernel are parameters; the only fact used
 * about them is that every weight is positive.
 */
module GeoApprox {
  import opened Viirs
  import opened RealArith

  /** A distance between two (latitude, longitude) points. */
  type Distance = (real, real, real, real) -> real

  /** The weight of a sample at distance d for resolution res. */
  type Kernel = (real, real) -> real

  /** The kernel gives every sample a positive weight. */
  ghost predicate PositiveKernel(kernel: Kernel)
  {
    forall d, res :: kernel(d, res) > 0.0
  }

  /** Number of valid samples among the first n. */
  function ValidCount(t: seq<real>, n: int): (k: nat)
    requires 0 <= n <= |t|
    ensures k <= n
    ensures k == 0 <==> forall i :: 0 <= i < n ==> IsInvalid(t[i])
  {
    if n == 0 then 0 else ValidCount(t, n - 1) + (if IsInvalid(t[n - 1]) then 0 else 1)
  }

  /** Sum of w[i] * t[i] over the valid samples among the first n. */
  function WeightedSum(t: seq<real>, w: seq<real>, n: int): real
    requires 0 <= n <= |t| == |w|
  {
    if n == 0 then 0.0 else WeightedSum(t, w, n - 1) + (if IsInvalid(t[n - 1]) then 0.0 else t[n - 1] * w[n - 1])
  }

  /** Sum of w[i] over the valid samples among the first n. */
  function WeightTotal(t: seq<real>, w: seq<real>, n: int): real
    requires 0 <= n <= |t| == |w|
  {
    if n == 0 then 0.0 else WeightTotal(t, w, n - 1) + (if IsInvalid(t[n - 1]) then 0.0 else w[n - 1])
  }

  /** Every weight among the first n is positive. */
  predicate PositiveWeights(w: seq<real>, n: int)
    requires 0 <= n <= |w|
  {
    forall i :: 0 <= i < n ==> w[i] > 0.0
  }

  /** With positive weights, the total weight is positive as soon as one sample is valid. */
  lemma {:induction false} WeightTotalPositive(t: seq<real>, w: seq<real>, n: int)
    requires 0 <= n <= |t| == |w| && PositiveWeights(w, n)
    ensures WeightTotal(t, w, n) >= 0.0
    ensures ValidCount(t, n) > 0 ==> WeightTotal(t, w, n) > 0.0
  {
    if n > 0 {
      WeightTotalPositive(t, w, n - 1);
    }
  }

  /**
   * If every valid sample is at least lo, the weighted sum is at least lo
   * times the total weight.
   */
  lemma {:induction false} WeightedSumAbove(t: seq<real>, w: seq<real>, n: int, lo: real)
    requires 0 <= n <= |t| == |w| && PositiveWeights(w, n)
    requires forall i :: 0 <= i < n && !IsInvalid(t[i]) ==> lo <= t[i]
    ensures lo * WeightTotal(t, w, n) <= WeightedSum(t, w, n)
  {
    if n > 0 {
      WeightedSumAbove(t, w, n - 1, lo);
      var tot, sum := WeightTotal(t, w, n - 1), WeightedSum(t, w, n - 1);
      if !IsInvalid(t[n - 1]) {
        AboveStep(lo, tot, sum, t[n - 1], w[n - 1], WeightTotal(t, w, n), WeightedSum(t, w, n));
      } else {
        assert WeightTotal(t, w, n) == tot && WeightedSum(t, w, n) == sum;
      }
    }
  }

  /** Adding a sample of at least lo, with a positive weight, keeps a weighted sum above lo times its total. */
  lemma AboveStep(lo: real, tot: real, sum: real, x: real, wx: real, tot': real, sum': real)
    requires lo * tot <= sum && lo <= x && wx > 0.0
    requires tot' == tot + wx && sum' == sum + x * wx
    ensures lo * tot' <= sum'
  {
    ScaleMono(lo, x, wx);
    Distribute(lo, tot, wx);
  }

  /**
   * If every valid sample is at most hi, the weighted sum is at most hi
   * times the total weight.
   */
  lemma {:induction false} WeightedSumBelow(t: seq<real>, w: seq<real>, n: int, hi: real)
    requires 0 <= n <= |t| == |w| && PositiveWeights(w, n)
    requires forall i :: 0 <= i < n && !IsInvalid(t[i]) ==> t[i] <= hi
    ensures WeightedSum(t, w, n) <= hi * WeightTotal(t, w, n)
  {
    if n > 0 {
      WeightedSumBelow(t, w, n - 1, hi);
      var tot, sum := WeightTotal(t, w, n - 1), WeightedSum(t, w, n - 1);
      if !IsInvalid(t[n - 1]) {
        BelowStep(hi, tot, sum, t[n - 1], w[n - 1], WeightTotal(t, w, n), WeightedSum(t, w, n));
      } else {
        assert WeightTotal(t, w, n) == tot && WeightedSum(t, w, n) == sum;
      }
    }
  }

  /** Adding a sample of at most hi, with a positive weight, keeps a weighted sum below hi times its total. */
  lemma BelowStep(hi: real, tot: real, sum: real, x: real, wx: real, tot': real, sum': real)
    requires sum <= hi * tot && x <= hi && wx > 0.0
    requires tot' == tot + wx && sum' == sum + x * wx
    ensures sum' <= hi * tot'
  {
    ScaleMono(x, hi, wx);
    Distribute(hi, tot, wx);
  }

  /**
   * The weighted mean of the valid samples among the first n (zero when the
   * total weight is zero, which positive weights and a valid sample rule out).
   */
  function WeightedMean(t: seq<real>, w: seq<real>, n: int): real
    requires 0 <= n <= |t| == |w|
  {
    var total := WeightTotal(t, w, n);
    if total == 0.0 then 0.0 else WeightedSum(t, w, n) / total
  }

  /** The smallest valid sample among the first n. */
  function MinValid(t: seq<real>, n: int): (m: real)
    requires 0 <= n <= |t| && ValidCount(t, n) > 0
    ensures exists i :: 0 <= i < n && !IsInvalid(t[i]) && m == t[i]
    ensures forall i :: 0 <= i < n && !IsInvalid(t[i]) ==> m <= t[i]
  {
    if IsInvalid(t[n - 1]) then MinValid(t, n - 1)
    else if ValidCount(t, n - 1) == 0 then t[n - 1]
    else var m := MinValid(t, n - 1); if t[n - 1] < m then t[n - 1] else m
  }

  /** The largest valid sample among the first n. */
  function MaxValid(t: seq<real>, n: int): (m: real)
    requires 0 <= n <= |t| && ValidCount(t, n) > 0
    ensures exists i :: 0 <= i < n && !IsInvalid(t[i]) && m == t[i]
    ensures forall i :: 0 <= i < n && !IsInvalid(t[i]) ==> t[i] <= m
  {
    if IsInvalid(t[n - 1]) then MaxValid(t, n - 1)
    else if ValidCount(t, n - 1) == 0 then t[n - 1]
    else var m := MaxValid(t, n - 1); if t[n - 1] > m then t[n - 1] else m
  }

  /** A mean whose sum lies between lo and hi times a positive total lies between lo and hi. */
  lemma MeanBetween(sum: real, total: real, mean: real, lo: real, hi: real)
    requires total > 0.0 && lo * total <= sum <= hi * total
    requires mean == if total == 0.0 then 0.0 else sum / total
    ensures lo <= mean <= hi
  {
    assert mean * total == sum;
    if mean < lo {
      ScaleMono(mean, lo, total);
    }
    if hi < mean {
      ScaleMono(hi, mean, total);
    }
  }

  /** The weighted mean of the valid samples lies in every interval holding all of them. */
  lemma WeightedMeanBetween(t: seq<real>, w: seq<real>, n: int, lo: real, hi: real)
    requires 0 <= n <= |t| == |w| && ValidCount(t, n) > 0 && PositiveWeights(w, n)
    requires forall i :: 0 <= i < n && !IsInvalid(t[i]) ==> lo <= t[i] <= hi
    ensures lo <= WeightedMean(t, w, n) <= hi
  {
    WeightTotalPositive(t, w, n);
    WeightedSumAbove(t, w, n, lo);
    WeightedSumBelow(t, w, n, hi);
    MeanBetween(WeightedSum(t, w, n), WeightTotal(t, w, n), WeightedMean(t, w, n), lo, hi);
  }

  /** Sum of the valid samples among the first n. */
  function ValidSum(t: seq<real>, n: int): real
    requires 0 <= n <= |t|
  {
    if n == 0 then 0.0 else ValidSum(t, n - 1) + (if IsInvalid(t[n - 1]) then 0.0 else t[n - 1])
  }

  /** With equal weights c, the weighted sum is c times the sum of the valid samples. */
  lemma {:induction false} EqualWeightsSum(t: seq<real>, w: seq<real>, n: int, c: real)
    requires 0 <= n <= |t| == |w|
    requires forall i :: 0 <= i < n ==> w[i] == c
    ensures WeightedSum(t, w, n) == c * ValidSum(t, n)
  {
    if n > 0 {
      EqualWeightsSum(t, w, n - 1, c);
      var vs := ValidSum(t, n - 1);
      if !IsInvalid(t[n - 1]) {
        EqualStep(c, vs, WeightedSum(t, w, n - 1), t[n - 1], WeightedSum(t, w, n), ValidSum(t, n));
      } else {
        assert WeightedSum(t, w, n) == WeightedSum(t, w, n - 1) && ValidSum(t, n) == vs;
      }
    } else {
      assert WeightedSum(t, w, n) == 0.0 && ValidSum(t, n) == 0.0;
    }
  }

  /** Adding x to a sum and c times x to c times that sum keeps the second c times the first. */
  lemma EqualStep(c: real, s: real, cs: real, x: real, cs': real, s': real)
    requires cs == c * s && cs' == cs + x * c && s' == s + x
    ensures cs' == c * s'
  {
    Distribute(c, s, x);
  }

  /** The number of valid samples among the first n, counted in the reals. */
  function ValidMass(t: seq<real>, n: int): real
    requires 0 <= n <= |t|
  {
    if n == 0 then 0.0 else ValidMass(t, n - 1) + (if IsInvalid(t[n - 1]) then 0.0 else 1.0)
  }

  /** Counting in the reals agrees with counting in the integers. */
  lemma {:induction false} ValidMassCount(t: seq<real>, n: int)
    requires 0 <= n <= |t|
    ensures ValidMass(t, n) == ValidCount(t, n) as real
  {
    if n > 0 {
      ValidMassCount(t, n - 1);
    }
  }

  /** With equal weights c, the total weight is c times the number of valid samples. */
  lemma {:induction false} EqualWeightsTotal(t: seq<real>, w: seq<real>, n: int, c: real)
    requires 0 <= n <= |t| == |w|
    requires forall i :: 0 <= i < n ==> w[i] == c
    ensures WeightTotal(t, w, n) == c * ValidMass(t, n)
  {
    if n > 0 {
      EqualWeightsTotal(t, w, n - 1, c);
      var vc := ValidMass(t, n - 1);
      if !IsInvalid(t[n - 1]) {
        EqualStep(c, vc, WeightTotal(t, w, n - 1), 1.0, WeightTotal(t, w, n), ValidMass(t, n));
      } else {
        assert WeightTotal(t, w, n) == WeightTotal(t, w, n - 1) && ValidMass(t, n) == vc;
      }
    } else {
      assert WeightTotal(t, w, n) == 0.0 && ValidMass(t, n) == 0.0;
    }
  }

  /** With equal positive weights, the weighted mean is the plain mean of the valid samples. */
  lemma EqualWeightsMean(t: seq<real>, w: seq<real>, n: int, c: real)
    requires 0 <= n <= |t| == |w| && ValidCount(t, n) > 0 && c > 0.0
    requires forall i :: 0 <= i < n ==> w[i] == c
    ensures WeightedMean(t, w, n) == ValidSum(t, n) / (ValidCount(t, n) as real)
  {
    EqualWeightsSum(t, w, n, c);
    EqualWeightsTotal(t, w, n, c);
    ValidMassCount(t, n);
    MeanOfEqualWeights(WeightedSum(t, w, n), WeightTotal(t, w, n), WeightedMean(t, w, n), ValidSum(t, n), ValidMass(t, n), ValidCount(t, n) as real, c);
  }

  /** A sum and a total that are both c times something give the quotient of those two things. */
  lemma MeanOfEqualWeights(sum: real, total: real, mean: real, vs: real, k: real, k': real, c: real)
    requires sum == c * vs && total == c * k && k == k' && c > 0.0 && k > 0.0
    requires mean == if total == 0.0 then 0.0 else sum / total
    ensures mean == vs / k'
  {
    ProductSign(c, k);
    CancelFactor(c, vs, k);
  }

  /** Changing or re-weighting invalid samples does not change the result. */
  lemma {:induction false} InvalidSamplesIgnored(t: seq<real>, w: seq<real>, t': seq<real>, w': seq<real>, n: int)
    requires 0 <= n <= |t| == |w| == |t'| == |w'|
    requires forall i :: 0 <= i < n ==> IsInvalid(t[i]) == IsInvalid(t'[i])
    requires forall i :: 0 <= i < n && !IsInvalid(t[i]) ==> t[i] == t'[i] && w[i] == w'[i]
    ensures WeightedSum(t, w, n) == WeightedSum(t', w', n)
    ensures WeightTotal(t, w, n) == WeightTotal(t', w', n)
  {
    if n > 0 {
      InvalidSamplesIgnored(t, w, t', w', n - 1);
    }
  }

  /** Counting the valid samples among three. */
  lemma ValidCountOfThree(t: seq<real>)
    requires |t| == 3
    ensures ValidCount(t, 3) == (if IsInvalid(t[0]) then 0 else 1) + (if IsInvalid(t[1]) then 0 else 1)
      + (if IsInvalid(t[2]) then 0 else 1)
  {
    assert ValidCount(t, 1) == (if IsInvalid(t[0]) then 0 else 1);
  }

  /** The weights the three samples get for the target point. */
  function Weights(lat: seq<real>, lon: seq<real>, targlat: real, targlon: real, res: real,
                   dist: Distance, kernel: Kernel): (w: seq<real>)
    requires |lat| == |lon| == 3
    ensures |w| == 3
    ensures forall i :: 0 <= i < 3 ==> w[i] == kernel(dist(targlat, targlon, lat[i], lon[i]), res)
  {
    seq(3, i requires 0 <= i < 3 => kernel(dist(targlat, targlon, lat[i], lon[i]), res))
  }

  /**
   * The value geoapprox computes: delval without a valid sample, the single
   * valid sample when there is one (it is then also the least valid one),
   * and otherwise the weighted mean of the valid samples.
   */
  function Approximation(t: seq<real>, lat: seq<real>, lon: seq<real>, targlat: real, targlon: real,
                         res: real, delval: real, dist: Distance, kernel: Kernel): real
    requires |t| == |lat| == |lon| == 3
  {
    var k := ValidCount(t, 3);
    if k == 0 then delval
    else if k == 1 then MinValid(t, 3)
    else WeightedMean(t, Weights(lat, lon, targlat, targlon, res, dist, kernel), 3)
  }

  /**
   * Without a valid sample the approximation is delval; otherwise it lies
   * between the smallest and the largest valid sample, so it is valid.
   */
  lemma ApproximationBetween(t: seq<real>, lat: seq<real>, lon: seq<real>, targlat: real, targlon: real,
                             res: real, delval: real, dist: Distance, kernel: Kernel)
    requires |t| == |lat| == |lon| == 3 && PositiveKernel(kernel)
    ensures var v := Approximation(t, lat, lon, targlat, targlon, res, delval, dist, kernel);
      (ValidCount(t, 3) == 0 ==> v == delval) &&
      (ValidCount(t, 3) > 0 ==> MinValid(t, 3) <= v <= MaxValid(t, 3) && !IsInvalid(v))
  {
    var k := ValidCount(t, 3);
    if k > 0 {
      var v := Approximation(t, lat, lon, targlat, targlon, res, delval, dist, kernel);
      var lo, hi := MinValid(t, 3), MaxValid(t, 3);
      if k >= 2 {
        var w := Weights(lat, lon, targlat, targlon, res, dist, kernel);
        WeightsPositive(lat, lon, targlat, targlon, res, dist, kernel);
        WeightedMeanBetween(t, w, 3, lo, hi);
        assert v == WeightedMean(t, w, 3);
      }
      assert lo <= v <= hi;
      ValidRange(t, 3);
    }
  }

  /** With a positive kernel every weight is positive. */
  lemma WeightsPositive(lat: seq<real>, lon: seq<real>, targlat: real, targlon: real, res: real,
                        dist: Distance, kernel: Kernel)
    requires |lat| == |lon| == 3 && PositiveKernel(kernel)
    ensures PositiveWeights(Weights(lat, lon, targlat, targlon, res, dist, kernel), 3)
  {
    var w := Weights(lat, lon, targlat, targlon, res, dist, kernel);
    forall i | 0 <= i < 3 ensures w[i] > 0.0 {
      var d := dist(targlat, targlon, lat[i], lon[i]);
      assert w[i] == kernel(d, res);
      assert PositiveKernel(kernel);
      assert kernel(d, res) > 0.0;
    }
  }

  /** The least and the greatest valid sample are themselves in the valid range. */
  lemma ValidRange(t: seq<real>, n: int)
    requires 0 <= n <= |t| && ValidCount(t, n) > 0
    ensures MIN_TEMP <= MinValid(t, n) && MaxValid(t, n) <= MAX_TEMP
  {
    var i :| 0 <= i < n && !IsInvalid(t[i]) && MinValid(t, n) == t[i];
    var j :| 0 <= j < n && !IsInvalid(t[j]) && MaxValid(t, n) == t[j];
  }

  /**
   * geoapprox: approximates the value at (targlat, targlon) from samples t
   * at (lat, lon). No valid sample gives delval (the deletion-zone value);
   * a single valid sample is returned unchanged; otherwise the result is
   * the kernel-weighted mean of the valid samples, which lies between the
   * smallest and the largest of them.
   */
  method GeoApprox(t: seq<real>, lat: seq<real>, lon: seq<real>, targlat: real, targlon: real,
                   res: real, delval: real, dist: Distance, kernel: Kernel) returns (r: real)
    requires |t| == |lat| == |lon| == 3
    requires PositiveKernel(kernel)
    ensures ValidCount(t, 3) == 0 ==> r == delval
    ensures ValidCount(t, 3) == 1 ==> exists i :: 0 <= i < 3 && !IsInvalid(t[i]) && r == t[i]
    ensures ValidCount(t, 3) >= 2 ==> r == WeightedMean(t, Weights(lat, lon, targlat, targlon, res, dist, kernel), 3)
    ensures ValidCount(t, 3) >= 1 ==> MinValid(t, 3) <= r <= MaxValid(t, 3)
    ensures r == Approximation(t, lat, lon, targlat, targlon, res, delval, dist, kernel)
  {
    ValidCountOfThree(t);
    if IsInvalid(t[0]) && IsInvalid(t[1]) && IsInvalid(t[2]) {
      return delval;
    }
    if IsInvalid(t[0]) && IsInvalid(t[1]) {
      return t[2];
    }
    if IsInvalid(t[0]) && IsInvalid(t[2]) {
      return t[1];
    }
    if IsInvalid(t[1]) && IsInvalid(t[2]) {
      return t[0];
    }
    ghost var w := Weights(lat, lon, targlat, targlon, res, dist, kernel);
    forall i | 0 <= i < 3 ensures w[i] > 0.0 {
      var d := dist(targlat, targlon, lat[i], lon[i]);
      assert w[i] == kernel(d, res);
      assert PositiveKernel(kernel);
      assert kernel(d, res) > 0.0;
    }
    var num := 0.0;
    var denom := 0.0;
    for i := 0 to 3
      invariant num == WeightedSum(t, w, i) && denom == WeightTotal(t, w, i)
    {
      if !IsInvalid(t[i]) {
        var d := dist(targlat, targlon, lat[i], lon[i]);
        var wi := kernel(d, res);
        num := num + t[i] * wi;
        denom := denom + wi;
      }
    }
    WeightTotalPositive(t, w, 3);
    r := num / denom;
    WeightedMeanBetween(t, w, 3, MinValid(t, 3), MaxValid(t, 3));
  }
}
